/**
 The maintenance-restart schedule: normalisation of what arrives from outside, the
 predicate that says a minute is scheduled, and the search for the next run.

 Local time is counted in microseconds from a Monday midnight, at one UTC offset.
 A minute is named by its number instead of its calendar text.
 */
module RestartSchedule {
  import opened Prelude
  import Text

  const DAY_ORDER: seq<string> := ["mon", "tue", "wed", "thu", "fri", "sat", "sun"]
  const DEFAULT_TIME := "03:30"
  const DEFAULT_DAYS: seq<string> := ["sun"]

  const MINUTE := 60_000_000
  const DAY_MINUTES := 1440
  const DAY := DAY_MINUTES * MINUTE

  datatype RawDays = DaysText(text: string) | DaysList(items: seq<string>) | DaysOther
  datatype RawTime = TimeText(text: string) | TimeOther

  /** A payload; None stands for a missing key (or an empty text, which counts as missing). */
  datatype RawSchedule = NotADict | Dict(enabled: Option<bool>, days: RawDays, time: RawTime,
                                         source: Option<string>, updatedAt: Option<string>)

  datatype Schedule = Schedule(enabled: bool, days: seq<string>, time: string, source: string, updatedAt: string)

  // ----- normalisation -----

  function TwoDigits(n: int): (s: string)
    requires 0 <= n < 100
    ensures |s| == 2 && Text.AllDigits(s)
  {
    [('0' as int + n / 10) as char, ('0' as int + n % 10) as char]
  }

  function ClockText(minuteOfDay: int): string
    requires 0 <= minuteOfDay < DAY_MINUTES
  {
    TwoDigits(minuteOfDay / 60) + ":" + TwoDigits(minuteOfDay % 60)
  }

  function TwoDigitValue(s: string): nat
    requires |s| == 2 && Text.AllDigits(s)
  {
    Text.DigitValue(s[0]) * 10 + Text.DigitValue(s[1])
  }

  /** Two digits, a colon, two digits; the pattern also lets a final line feed pass. */
  predicate LooksLikeTime(s: string) {
    && (|s| == 5 || (|s| == 6 && s[5] == '\n'))
    && Text.AllDigits(s[..2]) && s[2] == ':' && Text.AllDigits(s[3..5])
  }

  function ValidTime(raw: RawTime): (t: string)
    ensures exists m :: 0 <= m < DAY_MINUTES && t == ClockText(m)
  {
    if raw.TimeText? && LooksLikeTime(raw.text)
       && TwoDigitValue(raw.text[..2]) <= 23 && TwoDigitValue(raw.text[3..5]) <= 59
    then
      var m := TwoDigitValue(raw.text[..2]) * 60 + TwoDigitValue(raw.text[3..5]);
      assert m / 60 == TwoDigitValue(raw.text[..2]) && m % 60 == TwoDigitValue(raw.text[3..5]);
      ClockText(m)
    else
      assert DEFAULT_TIME == ClockText(210);
      DEFAULT_TIME
  }

  function Cleaned(items: seq<string>): (r: seq<string>)
    ensures |r| == |items| && forall i :: 0 <= i < |r| ==> r[i] == Text.Lower(Text.Strip(items[i]))
  {
    seq(|items|, i requires 0 <= i < |items| => Text.Lower(Text.Strip(items[i])))
  }

  function NamedDays(raw: RawDays): seq<string> {
    match raw
    case DaysText(text) => Cleaned(Text.Split(text, ','))
    case DaysList(items) => Cleaned(items)
    case DaysOther => []
  }

  /** The days of the week from index `k` on that are among `names`, in week order. */
  function InWeekOrder(names: seq<string>, k: nat): (r: seq<string>)
    requires k <= 7
    ensures forall d :: d in r <==> d in DAY_ORDER[k..] && d in names
    decreases 7 - k
  {
    if k == 7 then []
    else
      assert DAY_ORDER[k..] == [DAY_ORDER[k]] + DAY_ORDER[k + 1..];
      (if DAY_ORDER[k] in names then [DAY_ORDER[k]] else []) + InWeekOrder(names, k + 1)
  }

  function ValidDays(raw: RawDays): (r: seq<string>)
    ensures r != [] && forall d :: d in r ==> d in DAY_ORDER
    ensures (exists d :: d in NamedDays(raw) && d in DAY_ORDER) ==>
      forall d :: d in r <==> d in DAY_ORDER && d in NamedDays(raw)
  {
    var days := InWeekOrder(NamedDays(raw), 0);
    assert DAY_ORDER[0..] == DAY_ORDER;
    if days == [] then DEFAULT_DAYS else days
  }

  /** What every normalised schedule satisfies. */
  ghost predicate NormalForm(s: Schedule) {
    && s.days != [] && (forall d :: d in s.days ==> d in DAY_ORDER)
    && (exists m :: 0 <= m < DAY_MINUTES && s.time == ClockText(m))
  }

  predicate KnownSource(src: string) {
    src == "server" || src == "camera" || src == "system"
  }

  function NormalSource(raw: Option<string>, source: string): (src: string)
    ensures KnownSource(src)
  {
    var given := if raw.Some? && raw.value != "" then raw.value else if source != "" then source else "camera";
    var src := Text.Lower(Text.Strip(given));
    if KnownSource(src) then src else if KnownSource(source) then source else "system"
  }

  predicate IsEnabled(raw: RawSchedule) {
    raw.Dict? && raw.enabled == Some(true)
  }

  function NormaliseFrom(raw: RawSchedule, source: string): (s: Schedule)
    ensures NormalForm(s) && s.enabled == IsEnabled(raw)
  {
    if raw.NotADict? then Schedule(false, ValidDays(DaysOther), ValidTime(TimeOther), NormalSource(None, source), "")
    else Schedule(IsEnabled(raw), ValidDays(raw.days), ValidTime(raw.time), NormalSource(raw.source, source),
                  Text.Strip(if raw.updatedAt.Some? then raw.updatedAt.value else ""))
  }

  function Normalise(raw: RawSchedule): (s: Schedule)
    ensures NormalForm(s) && s.enabled == IsEnabled(raw)
  {
    NormaliseFrom(raw, "camera")
  }

  // ----- the scheduled minutes -----

  function Weekday(day: int): (w: int)
    ensures 0 <= w < 7
  {
    day % 7
  }

  function MinuteOf(instant: int): int {
    instant / MINUTE
  }

  /** The minute `instant` lies in, when that minute is scheduled. */
  function KeyOf(sched: Schedule, instant: int): Option<int> {
    var minute := MinuteOf(instant);
    if !sched.enabled then None
    else if DAY_ORDER[Weekday(minute / DAY_MINUTES)] !in sched.days then None
    else if ClockText(minute % DAY_MINUTES) != sched.time then None
    else Some(minute)
  }

  function ScheduledMinuteKey(instant: int, raw: RawSchedule): Option<int> {
    KeyOf(Normalise(raw), instant)
  }

  function ParsedMinute(time: string): int
    requires |time| == 5 && Text.AllDigits(time[..2]) && Text.AllDigits(time[3..])
  {
    TwoDigitValue(time[..2]) * 60 + TwoDigitValue(time[3..])
  }

  /** The wanted days of the week, as numbers from Monday. */
  function WantedDays(sched: Schedule): set<int> {
    set w | 0 <= w < 7 && DAY_ORDER[w] in sched.days
  }

  /** The search over eight days, from `offset` on. */
  function Scan(wanted: set<int>, minuteOfDay: int, now: int, offset: nat): (c: Option<int>)
    requires offset <= 8
    decreases 8 - offset
  {
    if offset == 8 then None
    else
      var day := now / DAY + offset;
      var candidate := day * DAY_MINUTES + minuteOfDay;
      if Weekday(day) !in wanted then Scan(wanted, minuteOfDay, now, offset + 1)
      else if candidate * MINUTE <= now then Scan(wanted, minuteOfDay, now, offset + 1)
      else Some(candidate)
  }

  /** The scheduled minute of the day, read back from the normalised text. */
  function NormalMinute(sched: Schedule): (m: int)
    requires NormalForm(sched)
    ensures 0 <= m < DAY_MINUTES && sched.time == ClockText(m)
  {
    NormalTimeParses(sched);
    ParsedMinute(sched.time)
  }

  function NextOf(sched: Schedule, now: int): Option<int>
    requires NormalForm(sched)
  {
    if !sched.enabled then None else Scan(WantedDays(sched), NormalMinute(sched), now, 0)
  }

  /** The start of the next scheduled minute, as a minute number. */
  function NextRunAt(raw: RawSchedule, now: int): Option<int> {
    NextOf(Normalise(raw), now)
  }

  // ----- proofs -----

  lemma ClockTextIsInjective(a: int, b: int)
    requires 0 <= a < DAY_MINUTES && 0 <= b < DAY_MINUTES && ClockText(a) == ClockText(b)
    ensures a == b
  {
    var s, t := ClockText(a), ClockText(b);
    assert s[0] == t[0] && s[1] == t[1] && s[3] == t[3] && s[4] == t[4];
  }

  lemma ClockTextParses(m: int)
    requires 0 <= m < DAY_MINUTES
    ensures var t := ClockText(m);
      |t| == 5 && Text.AllDigits(t[..2]) && Text.AllDigits(t[3..]) && ParsedMinute(t) == m && LooksLikeTime(t)
  {
    var t := ClockText(m);
    assert t[..2] == TwoDigits(m / 60) && t[3..] == t[3..5] == TwoDigits(m % 60);
  }

  lemma NormalTimeParses(sched: Schedule)
    requires NormalForm(sched)
    ensures var t := sched.time;
      && |t| == 5 && Text.AllDigits(t[..2]) && Text.AllDigits(t[3..])
      && 0 <= ParsedMinute(t) < DAY_MINUTES && t == ClockText(ParsedMinute(t))
  {
    var m :| 0 <= m < DAY_MINUTES && sched.time == ClockText(m);
    ClockTextParses(m);
  }

  /** Minute `t` is wanted: its day is, and it is the scheduled minute of the day. */
  predicate Wanted(wanted: set<int>, minuteOfDay: int, t: int) {
    Weekday(t / DAY_MINUTES) in wanted && t % DAY_MINUTES == minuteOfDay
  }

  lemma KeyMeansWanted(sched: Schedule, instant: int)
    requires NormalForm(sched) && sched.enabled
    ensures KeyOf(sched, instant) ==
      if Wanted(WantedDays(sched), NormalMinute(sched), MinuteOf(instant)) then Some(MinuteOf(instant)) else None
  {
    var m := MinuteOf(instant);
    if ClockText(m % DAY_MINUTES) == sched.time {
      ClockTextIsInjective(m % DAY_MINUTES, NormalMinute(sched));
    }
  }

  lemma SomeDayIsWanted(sched: Schedule) returns (w: int)
    requires NormalForm(sched)
    ensures 0 <= w < 7 && w in WantedDays(sched)
  {
    assert sched.days[0] in sched.days;
    w :| 0 <= w < 7 && DAY_ORDER[w] == sched.days[0];
  }

  predicate IsCandidate(wanted: set<int>, minuteOfDay: int, now: int, offset: int, m: int) {
    && m == (now / DAY + offset) * DAY_MINUTES + minuteOfDay
    && Weekday(now / DAY + offset) in wanted
    && m * MINUTE > now
  }

  /** The scan returns the earliest candidate among its remaining offsets, if there is one. */
  lemma {:induction false} ScanFindsFirst(wanted: set<int>, minuteOfDay: int, now: int, offset: nat)
    requires offset <= 8
    ensures var c := Scan(wanted, minuteOfDay, now, offset);
      && (c.Some? ==> exists o :: offset <= o < 8 && IsCandidate(wanted, minuteOfDay, now, o, c.value))
      && (forall o, m :: offset <= o < 8 && IsCandidate(wanted, minuteOfDay, now, o, m) ==> c.Some? && c.value <= m)
    decreases 8 - offset
  {
    if offset < 8 {
      ScanFindsFirst(wanted, minuteOfDay, now, offset + 1);
      var day := now / DAY + offset;
      var candidate := day * DAY_MINUTES + minuteOfDay;
      if Weekday(day) in wanted && candidate * MINUTE > now {
        assert IsCandidate(wanted, minuteOfDay, now, offset, candidate);
      }
    }
  }

  /** One of the eight days has a candidate, at most seven days away. */
  lemma SomeCandidate(wanted: set<int>, w: int, minuteOfDay: int, now: int) returns (o: int, m: int)
    requires w in wanted && 0 <= w < 7 && 0 <= minuteOfDay < DAY_MINUTES
    ensures 0 <= o < 8 && IsCandidate(wanted, minuteOfDay, now, o, m)
    ensures m * MINUTE - now <= 7 * DAY
  {
    var today := now / DAY;
    o := (w - Weekday(today)) % 7;
    assert Weekday(today + o) == w;
    if ((today + o) * DAY_MINUTES + minuteOfDay) * MINUTE <= now {
      assert o == 0;
      o := 7;
      assert Weekday(today + 7) == w;
    }
    m := (today + o) * DAY_MINUTES + minuteOfDay;
  }

  lemma WantedIsCandidate(wanted: set<int>, minuteOfDay: int, now: int, t: int)
    requires 0 <= minuteOfDay < DAY_MINUTES && Wanted(wanted, minuteOfDay, t) && t * MINUTE > now
    ensures t / DAY_MINUTES >= now / DAY
    ensures IsCandidate(wanted, minuteOfDay, now, t / DAY_MINUTES - now / DAY, t)
  {
    assert t == t / DAY_MINUTES * DAY_MINUTES + minuteOfDay;
  }

  lemma CandidateIsWanted(wanted: set<int>, minuteOfDay: int, now: int, o: int, m: int)
    requires 0 <= minuteOfDay < DAY_MINUTES && IsCandidate(wanted, minuteOfDay, now, o, m)
    ensures Wanted(wanted, minuteOfDay, m)
  {
    assert m / DAY_MINUTES == now / DAY + o;
  }

  lemma ScanIsLeast(wanted: set<int>, w: int, minuteOfDay: int, now: int)
    requires w in wanted && 0 <= w < 7 && 0 <= minuteOfDay < DAY_MINUTES
    ensures var c := Scan(wanted, minuteOfDay, now, 0);
      && c.Some? && now < c.value * MINUTE <= now + 7 * DAY && Wanted(wanted, minuteOfDay, c.value)
      && forall t :: Wanted(wanted, minuteOfDay, t) && t * MINUTE > now ==> c.value <= t
  {
    ScanFindsFirst(wanted, minuteOfDay, now, 0);
    var c := Scan(wanted, minuteOfDay, now, 0);
    var o, m := SomeCandidate(wanted, w, minuteOfDay, now);
    var o' :| 0 <= o' < 8 && IsCandidate(wanted, minuteOfDay, now, o', c.value);
    CandidateIsWanted(wanted, minuteOfDay, now, o', c.value);
    forall t | Wanted(wanted, minuteOfDay, t) && t * MINUTE > now
      ensures c.value <= t
    {
      WantedIsCandidate(wanted, minuteOfDay, now, t);
    }
  }

  /** `c` is the least minute with a key strictly after `now`, and at most seven days away. */
  ghost predicate IsLeastScheduled(sched: Schedule, now: int, c: int) {
    && now < c * MINUTE <= now + 7 * DAY
    && KeyOf(sched, c * MINUTE) == Some(c)
    && forall t :: KeyOf(sched, t).Some? && MinuteOf(t) * MINUTE > now ==> c <= MinuteOf(t)
  }

  lemma LeastWantedIsLeastScheduled(sched: Schedule, now: int, c: int)
    requires NormalForm(sched) && sched.enabled && now < c * MINUTE <= now + 7 * DAY
    requires Wanted(WantedDays(sched), NormalMinute(sched), c)
    requires forall t :: Wanted(WantedDays(sched), NormalMinute(sched), t) && t * MINUTE > now ==> c <= t
    ensures IsLeastScheduled(sched, now, c)
  {
    KeyMeansWanted(sched, c * MINUTE);
    assert MinuteOf(c * MINUTE) == c;
    forall t | KeyOf(sched, t).Some? && MinuteOf(t) * MINUTE > now
      ensures c <= MinuteOf(t)
    {
      KeyMeansWanted(sched, t);
    }
  }

  lemma NextOfIsLeast(sched: Schedule, now: int)
    requires NormalForm(sched) && sched.enabled
    ensures NextOf(sched, now).Some? && IsLeastScheduled(sched, now, NextOf(sched, now).value)
  {
    var w := SomeDayIsWanted(sched);
    ScanIsLeast(WantedDays(sched), w, NormalMinute(sched), now);
    LeastWantedIsLeastScheduled(sched, now, NextOf(sched, now).value);
  }

  /**
   For every payload and every instant: an enabled schedule has a next run, namely the least
   scheduled minute strictly after the instant, at most seven days away; a disabled one has none,
   and no scheduled minutes.
   */
  lemma NextRunIsLeastScheduledMinute(raw: RawSchedule, now: int)
    ensures IsEnabled(raw) ==>
      NextRunAt(raw, now).Some? && IsLeastScheduled(Normalise(raw), now, NextRunAt(raw, now).value)
    ensures !IsEnabled(raw) ==> NextRunAt(raw, now).None? && forall t :: ScheduledMinuteKey(t, raw).None?
  {
    if IsEnabled(raw) {
      NextOfIsLeast(Normalise(raw), now);
    }
  }

  // ----- what the keys and texts say -----

  /** The clock text of a minute: hours, a colon, minutes. */
  lemma ClockTextReads(m: int)
    requires 0 <= m < DAY_MINUTES
    ensures var t := ClockText(m);
      && |t| == 5 && t[2] == ':' && Text.AllDigits(t[..2]) && Text.AllDigits(t[3..])
      && Text.Value(t[..2]) == m / 60 && Text.Value(t[3..]) == m % 60
  {
    var t := ClockText(m);
    TwoDigitsRead(m / 60);
    TwoDigitsRead(m % 60);
    assert t[..2] == TwoDigits(m / 60) && t[3..] == TwoDigits(m % 60);
  }

  lemma TwoDigitsRead(n: int)
    requires 0 <= n < 100
    ensures Text.Value(TwoDigits(n)) == n
  {
    var s := TwoDigits(n);
    var tens := s[..1];
    assert Text.Value(tens) == Text.DigitValue(s[0]) by { assert Text.Value(tens[..0]) == 0; }
    assert Text.Value(s) == Text.Value(tens) * 10 + Text.DigitValue(s[1]);
  }

  /** Minute `m` of day `i` of a week counted from the Monday the count starts at. */
  function MinuteIn(week: int, i: int, m: int): int {
    (7 * week + i) * DAY_MINUTES + m
  }

  lemma MinuteParts(week: int, i: int, m: int)
    requires 0 <= i < 7 && 0 <= m < DAY_MINUTES
    ensures MinuteIn(week, i, m) % DAY_MINUTES == m && MinuteIn(week, i, m) / DAY_MINUTES % 7 == i
  {
    assert MinuteIn(week, i, m) / DAY_MINUTES == 7 * week + i;
  }

  lemma InstantInMinute(instant: int, minute: int)
    requires minute * MINUTE <= instant < (minute + 1) * MINUTE
    ensures MinuteOf(instant) == minute
  {
  }

  lemma KeyOfInstant(sched: Schedule, instant: int, minute: int, i: int, m: int)
    requires MinuteOf(instant) == minute && 0 <= m < DAY_MINUTES && 0 <= i < 7
    requires minute / DAY_MINUTES % 7 == i && minute % DAY_MINUTES == m
    ensures KeyOf(sched, instant) ==
      if sched.enabled && DAY_ORDER[i] in sched.days && sched.time == ClockText(m) then Some(minute) else None
  {
    assert Weekday(minute / DAY_MINUTES) == i;
  }

  lemma KeyAtInstant(raw: RawSchedule, instant: int, minute: int, i: int, m: int)
    requires MinuteOf(instant) == minute && 0 <= m < DAY_MINUTES && 0 <= i < 7
    requires minute / DAY_MINUTES % 7 == i && minute % DAY_MINUTES == m
    ensures ScheduledMinuteKey(instant, raw) ==
      if IsEnabled(raw) && DAY_ORDER[i] in Normalise(raw).days && Normalise(raw).time == ClockText(m)
      then Some(minute) else None
  {
    KeyOfInstant(Normalise(raw), instant, minute, i, m);
  }

  /**
   Any instant inside minute `m` of day `i` of any week has a key exactly when the schedule is enabled
   and names that day of the week and that time; the key is the minute.
   */
  lemma KeyNamesDayAndTime(raw: RawSchedule, week: int, i: int, m: int, instant: int)
    requires 0 <= i < 7 && 0 <= m < DAY_MINUTES
    requires MinuteIn(week, i, m) * MINUTE <= instant < (MinuteIn(week, i, m) + 1) * MINUTE
    ensures ScheduledMinuteKey(instant, raw) ==
      if IsEnabled(raw) && DAY_ORDER[i] in Normalise(raw).days && Normalise(raw).time == ClockText(m)
      then Some(MinuteIn(week, i, m)) else None
  {
    var minute := MinuteIn(week, i, m);
    MinuteParts(week, i, m);
    InstantInMinute(instant, minute);
    KeyAtInstant(raw, instant, minute, i, m);
  }

  /** `text` writes minute `m` of the day, or does so followed by a line feed. */
  predicate Writes(text: string, m: int)
    requires 0 <= m < DAY_MINUTES
  {
    text == ClockText(m) || text == ClockText(m) + "\n"
  }

  lemma TwoDigitsOf(s: string)
    requires |s| == 2 && Text.AllDigits(s)
    ensures s == TwoDigits(TwoDigitValue(s))
  {
  }

  lemma WrittenTimeIsTaken(text: string, m: int)
    requires 0 <= m < DAY_MINUTES && Writes(text, m)
    ensures ValidTime(TimeText(text)) == ClockText(m)
  {
    ClockTextParses(m);
    var t := ClockText(m);
    assert t[..2] == TwoDigits(m / 60) && t[3..5] == TwoDigits(m % 60);
    assert text[..2] == t[..2] && text[3..5] == t[3..5];
  }

  lemma TakenTimeIsWritten(text: string) returns (m: int)
    requires LooksLikeTime(text) && TwoDigitValue(text[..2]) <= 23 && TwoDigitValue(text[3..5]) <= 59
    ensures 0 <= m < DAY_MINUTES && Writes(text, m)
  {
    m := TwoDigitValue(text[..2]) * 60 + TwoDigitValue(text[3..5]);
    TwoDigitsOf(text[..2]);
    TwoDigitsOf(text[3..5]);
    assert m / 60 == TwoDigitValue(text[..2]) && m % 60 == TwoDigitValue(text[3..5]);
    var t := ClockText(m);
    assert text[..5] == text[..2] + ":" + text[3..5];
    assert |text| == 5 ==> text == text[..5];
    assert |text| == 6 ==> text == text[..5] + "\n";
  }

  /** A text that writes a minute of the day is taken as that time; anything else becomes 03:30. */
  lemma TimeIsTakenOrDefault(raw: RawTime)
    ensures forall m :: 0 <= m < DAY_MINUTES && raw.TimeText? && Writes(raw.text, m) ==> ValidTime(raw) == ClockText(m)
    ensures (forall m :: 0 <= m < DAY_MINUTES && raw.TimeText? ==> !Writes(raw.text, m)) ==> ValidTime(raw) == "03:30"
  {
    forall m | 0 <= m < DAY_MINUTES && raw.TimeText? && Writes(raw.text, m) {
      WrittenTimeIsTaken(raw.text, m);
    }
    if raw.TimeText? && LooksLikeTime(raw.text)
       && TwoDigitValue(raw.text[..2]) <= 23 && TwoDigitValue(raw.text[3..5]) <= 59 {
      var m := TakenTimeIsWritten(raw.text);
    }
  }

  /** The members of `order` that are among `names`, in order. */
  function Among<T(==)>(order: seq<T>, names: seq<T>): seq<T> {
    if |order| == 0 then []
    else (if order[0] in names then [order[0]] else []) + Among(order[1..], names)
  }

  lemma {:induction false} AmongHasIndex<T>(order: seq<T>, names: seq<T>, i: nat) returns (a: nat)
    requires i < |Among(order, names)|
    ensures a < |order| && order[a] == Among(order, names)[i]
  {
    if order[0] in names && i == 0 {
      a := 0;
    } else {
      a := AmongHasIndex(order[1..], names, if order[0] in names then i - 1 else i);
      a := a + 1;
    }
  }

  lemma {:induction false} AmongClimbs<T>(order: seq<T>, names: seq<T>, i: nat, j: nat) returns (a: nat, b: nat)
    requires i < j < |Among(order, names)|
    ensures a < b < |order| && order[a] == Among(order, names)[i] && order[b] == Among(order, names)[j]
  {
    var here := if order[0] in names then 1 else 0;
    if i < here {
      a := 0;
      b := AmongHasIndex(order[1..], names, j - here);
    } else {
      a, b := AmongClimbs(order[1..], names, i - here, j - here);
      a := a + 1;
    }
    b := b + 1;
  }

  lemma {:induction false} WeekOrderIsAmong(order: seq<string>, names: seq<string>, k: nat)
    requires k <= 7 && order == DAY_ORDER
    ensures InWeekOrder(names, k) == Among(order[k..], names)
    decreases 7 - k
  {
    if k < 7 {
      WeekOrderIsAmong(order, names, k + 1);
      assert order[k..][0] == order[k] && order[k..][1..] == order[k + 1..];
    }
  }

  /** The days of a normalised schedule come in the order of the week, none twice. */
  lemma DaysAreInOrder(raw: RawDays, i: nat, j: nat) returns (a: nat, b: nat)
    requires i < j < |ValidDays(raw)|
    ensures a < b < |DAY_ORDER| && DAY_ORDER[a] == ValidDays(raw)[i] && DAY_ORDER[b] == ValidDays(raw)[j]
  {
    var order, names := DAY_ORDER, NamedDays(raw);
    WeekOrderIsAmong(order, names, 0);
    assert order[0..] == order;
    a, b := AmongClimbs(order, names, i, j);
  }

  // ----- normalising twice -----

  function AsPayload(s: Schedule): RawSchedule {
    Dict(Some(s.enabled), DaysList(s.days), TimeText(s.time), Some(s.source), Some(s.updatedAt))
  }

  lemma DayNamesAreClean(d: string)
    requires d in DAY_ORDER
    ensures Text.Lower(Text.Strip(d)) == d
  {
    Text.StripKeeps(d, Text.IsSpace);
    assert forall i :: 0 <= i < |d| ==> Text.LowerChar(d[i]) == d[i];
  }

  lemma {:induction false} WeekOrderOfMembers(a: seq<string>, b: seq<string>, k: nat)
    requires k <= 7 && forall d :: d in DAY_ORDER ==> (d in a <==> d in b)
    ensures InWeekOrder(a, k) == InWeekOrder(b, k)
    decreases 7 - k
  {
    if k < 7 {
      assert DAY_ORDER[k] in DAY_ORDER;
      WeekOrderOfMembers(a, b, k + 1);
    }
  }

  lemma CleanDaysStay(days: seq<string>, source: seq<string>)
    requires days != [] && days == InWeekOrder(source, 0)
    ensures ValidDays(DaysList(days)) == days
  {
    var names := NamedDays(DaysList(days));
    assert DAY_ORDER[0..] == DAY_ORDER;
    forall i | 0 <= i < |days|
      ensures names[i] == days[i]
    {
      assert days[i] in days;
      DayNamesAreClean(days[i]);
    }
    assert names == days;
    WeekOrderOfMembers(names, source, 0);
  }

  lemma CleanTimeStays(m: int)
    requires 0 <= m < DAY_MINUTES
    ensures ValidTime(TimeText(ClockText(m))) == ClockText(m)
  {
    ClockTextParses(m);
    var t := ClockText(m);
    assert t[..2] == TwoDigits(m / 60) && t[3..5] == TwoDigits(m % 60);
  }

  lemma {:induction false} OutOfWeekOrder(names: seq<string>, k: nat, n: nat)
    requires k <= n <= 7 && forall i :: k <= i < n ==> DAY_ORDER[i] !in names
    ensures InWeekOrder(names, k) == InWeekOrder(names, n)
    decreases n - k
  {
    if k < n {
      OutOfWeekOrder(names, k + 1, n);
    }
  }

  lemma DefaultDaysAreOrdered()
    ensures InWeekOrder(DEFAULT_DAYS, 0) == DEFAULT_DAYS
  {
    forall i | 0 <= i < 6
      ensures DAY_ORDER[i] != "sun"
    {
      assert DAY_ORDER[i][0] != 's' || DAY_ORDER[i][1] != 'u';
    }
    OutOfWeekOrder(DEFAULT_DAYS, 0, 6);
    assert DAY_ORDER[6] == "sun" && InWeekOrder(DEFAULT_DAYS, 7) == [];
  }

  lemma ValidDaysAreOrdered(raw: RawDays) returns (source: seq<string>)
    ensures ValidDays(raw) == InWeekOrder(source, 0)
  {
    source := NamedDays(raw);
    if InWeekOrder(source, 0) == [] {
      source := DEFAULT_DAYS;
      DefaultDaysAreOrdered();
    }
  }

  lemma CleanSourceStays(src: string, source: string)
    requires KnownSource(src)
    ensures NormalSource(Some(src), source) == src
  {
    Text.StripKeeps(src, Text.IsSpace);
    assert forall i :: 0 <= i < |src| ==> Text.LowerChar(src[i]) == src[i];
    assert Text.Lower(src) == src;
  }

  lemma NormaliseOfPayload(s: Schedule, source: string)
    ensures NormaliseFrom(AsPayload(s), source) ==
      Schedule(s.enabled, ValidDays(DaysList(s.days)), ValidTime(TimeText(s.time)), NormalSource(Some(s.source), source),
               Text.Strip(s.updatedAt))
  {
  }

  lemma PartsStay(s: Schedule, minute: int, named: seq<string>, source: string)
    requires 0 <= minute < DAY_MINUTES && s.time == ClockText(minute)
    requires s.days != [] && s.days == InWeekOrder(named, 0) && KnownSource(s.source)
    ensures NormaliseFrom(AsPayload(s), source) == s.(updatedAt := Text.Strip(s.updatedAt))
  {
    CleanTimeStays(minute);
    CleanDaysStay(s.days, named);
    CleanSourceStays(s.source, source);
    NormaliseOfPayload(s, source);
  }

  lemma NormaliseParts(raw: RawSchedule, source: string) returns (minute: int, named: seq<string>)
    ensures var s := NormaliseFrom(raw, source);
      && 0 <= minute < DAY_MINUTES && s.time == ClockText(minute)
      && s.days != [] && s.days == InWeekOrder(named, 0)
      && KnownSource(s.source) && Text.Strip(s.updatedAt) == s.updatedAt
  {
    var s := NormaliseFrom(raw, source);
    minute :| 0 <= minute < DAY_MINUTES && s.time == ClockText(minute);
    named := ValidDaysAreOrdered(if raw.Dict? then raw.days else DaysOther);
    Text.StripKeeps(s.updatedAt, Text.IsSpace);
  }

  /** A normalised schedule is a fixed point: sending it back changes nothing, whoever sends it. */
  lemma NormaliseIsIdempotent(raw: RawSchedule, source: string, source': string)
    ensures NormaliseFrom(AsPayload(NormaliseFrom(raw, source)), source') == NormaliseFrom(raw, source)
  {
    var minute, named := NormaliseParts(raw, source);
    PartsStay(NormaliseFrom(raw, source), minute, named, source');
  }
}
