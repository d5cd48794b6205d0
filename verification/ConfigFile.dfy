/** The KEY=VALUE configuration file: what `save` writes and what loading makes of it. */
module ConfigFile {
  import opened Prelude
  import Text

  type Values = map<string, string>

  predicate IsKeyChar(c: char) {
    'A' <= c <= 'Z' || '0' <= c <= '9' || c == '_'
  }

  /** Every key with a default is of this form. */
  predicate IsKey(k: string) {
    |k| > 0 && forall i :: 0 <= i < |k| ==> IsKeyChar(k[i])
  }

  // ----- writing -----

  function LineOf(key: string, val: string): string {
    key + "=" + val
  }

  function Ended(key: string, val: string): string {
    LineOf(key, val) + "\n"
  }

  lemma ConcatAssociates(a: string, b: string, c: string)
    ensures a + (b + c) == (a + b) + c
  {
  }

  /** The file `save` writes: one line a key, in the order of `keys`. */
  function Printed(keys: seq<string>, values: Values): string
    requires forall k :: k in keys ==> k in values
  {
    if |keys| == 0 then ""
    else Ended(keys[0], values[keys[0]]) + Printed(keys[1..], values)
  }

  // ----- reading -----

  predicate IsBreak(c: char) {
    c == '\n' || c == '\r'
  }

  predicate NoBreak(s: string) {
    forall i :: 0 <= i < |s| ==> !IsBreak(s[i])
  }

  function FindBreak(s: string): (i: nat)
    ensures i <= |s| && NoBreak(s[..i]) && (i < |s| ==> IsBreak(s[i]))
  {
    if |s| == 0 || IsBreak(s[0]) then 0
    else
      var i := 1 + FindBreak(s[1..]);
      assert s[..i] == [s[0]] + s[1..][..i - 1];
      i
  }

  /** The lines of a text read with universal newlines; the empty line inside a CR LF pair is harmless. */
  function Lines(s: string): seq<string> {
    var i := FindBreak(s);
    if i == |s| then [s] else [s[..i]] + Lines(s[i + 1..])
  }

  /** What loading makes of a value: outer blanks, then double quotes, then single quotes go. */
  function Cleaned(val: string): string {
    Text.StripOf(Text.StripOf(Text.Strip(val), c => c == '"'), c => c == '\'')
  }

  /** The key and value of a line, unless it is blank, a comment, or has no equals sign. */
  function ParseLine(line: string): Option<(string, string)> {
    var t := Text.Strip(line);
    if t == "" || t[0] == '#' then None
    else
      var eq := Text.Find(t, '=');
      if eq == |t| then None else Some((Text.Strip(t[..eq]), Cleaned(t[eq + 1..])))
  }

  function Absorb(keys: seq<string>, values: Values, line: string): Values {
    var kv := ParseLine(line);
    if kv.Some? && kv.value.0 in keys then values[kv.value.0 := kv.value.1] else values
  }

  function AbsorbAll(keys: seq<string>, values: Values, lines: seq<string>): Values
    decreases |lines|
  {
    if |lines| == 0 then values else AbsorbAll(keys, Absorb(keys, values, lines[0]), lines[1..])
  }

  // ----- the manager -----

  /** How the operating system takes a save: all of it, a refusal to open the file, or a failure after some characters. */
  datatype Disk = Writable | Refusing | Failing(written: nat)

  /** The file after an attempt to replace its contents `before` by `text`. */
  function AfterWrite(disk: Disk, before: string, text: string): string {
    match disk
    case Writable => text
    case Refusing => before
    case Failing(n) => text[..Min(n, |text|)]
  }

  class ConfigManager {
    const keys: seq<string>
    var values: Values
    /** The contents of the configuration file. */
    var file: string

    ghost predicate Valid()
      reads this
    {
      forall k :: k in keys ==> k in values
    }

    constructor (keys: seq<string>, defaults: Values, file: string)
      requires forall k :: k in keys ==> k in defaults
      ensures Valid() && this.keys == keys && values == defaults && this.file == file
    {
      this.keys, this.values, this.file := keys, defaults, file;
    }

    /** Opening the file for writing empties it; a write that fails then leaves it cut short. */
    method Save(disk: Disk) returns (raised: bool)
      requires Valid()
      modifies this`file
      ensures raised == !disk.Writable?
      ensures file == AfterWrite(disk, old(file), Printed(keys, values))
    {
      if disk.Refusing? { return true; }
      var text := "";
      for i := 0 to |keys|
        invariant text + Printed(keys[i..], values) == Printed(keys, values)
      {
        assert keys[i..][0] == keys[i] && keys[i..][1..] == keys[i + 1..];
        var line := Ended(keys[i], values[keys[i]]);
        ConcatAssociates(text, line, Printed(keys[i + 1..], values));
        text := text + line;
      }
      file := if disk.Failing? then text[..Min(disk.written, |text|)] else text;
      raised := disk.Failing?;
    }

    /** Known keys are overwritten in the given order, in memory; then everything is saved, which may raise. */
    method Update(updates: seq<(string, string)>, disk: Disk) returns (raised: bool)
      requires Valid()
      modifies this
      ensures Valid() && values == Overwritten(keys, old(values), updates)
      ensures raised == !disk.Writable?
      ensures file == AfterWrite(disk, old(file), Printed(keys, values))
    {
      for i := 0 to |updates|
        invariant Valid() && file == old(file)
        invariant Overwritten(keys, values, updates[i..]) == Overwritten(keys, old(values), updates)
      {
        assert updates[i..][1..] == updates[i + 1..];
        if updates[i].0 in keys {
          values := values[updates[i].0 := updates[i].1];
        }
      }
      raised := Save(disk);
    }

    /** Loading absorbs the file line by line over the values held. */
    method Load()
      requires Valid()
      modifies this`values
      ensures Valid() && values == AbsorbAll(keys, old(values), Lines(file))
    {
      var lines := Lines(file);
      for i := 0 to |lines|
        invariant Valid() && AbsorbAll(keys, values, lines[i..]) == AbsorbAll(keys, old(values), lines)
      {
        assert lines[i..][1..] == lines[i + 1..];
        values := Absorb(keys, values, lines[i]);
      }
    }
  }

  function Overwritten(keys: seq<string>, values: Values, updates: seq<(string, string)>): Values
    decreases |updates|
  {
    if |updates| == 0 then values
    else Overwritten(keys, if updates[0].0 in keys then values[updates[0].0 := updates[0].1] else values, updates[1..])
  }

  lemma {:induction false} OverwrittenAppend(keys: seq<string>, values: Values, updates: seq<(string, string)>, key: string, val: string)
    requires key in keys
    ensures Overwritten(keys, values, updates + [(key, val)]) == Overwritten(keys, values, updates)[key := val]
    decreases |updates|
  {
    if |updates| == 0 {
      assert (updates + [(key, val)])[1..] == [];
    } else {
      var u := updates[0];
      assert (updates + [(key, val)])[1..] == updates[1..] + [(key, val)];
      OverwrittenAppend(keys, if u.0 in keys then values[u.0 := u.1] else values, updates[1..], key, val);
    }
  }

  /** An update of an unknown key does nothing. */
  lemma {:induction false} OverwrittenIgnores(keys: seq<string>, values: Values, updates: seq<(string, string)>, key: string, val: string)
    requires key !in keys
    ensures Overwritten(keys, values, updates + [(key, val)]) == Overwritten(keys, values, updates)
    decreases |updates|
  {
    if |updates| == 0 {
      assert (updates + [(key, val)])[1..] == [];
    } else {
      var u := updates[0];
      assert (updates + [(key, val)])[1..] == updates[1..] + [(key, val)];
      OverwrittenIgnores(keys, if u.0 in keys then values[u.0 := u.1] else values, updates[1..], key, val);
    }
  }

  // ----- the round trip -----

  lemma {:induction false} FindBreakAt(line: string, rest: string)
    requires NoBreak(line)
    ensures FindBreak(line + "\n" + rest) == |line|
  {
    var s := line + "\n" + rest;
    if |line| > 0 {
      assert s[1..] == line[1..] + "\n" + rest;
      FindBreakAt(line[1..], rest);
    }
  }

  lemma FirstLine(line: string, rest: string)
    requires NoBreak(line)
    ensures Lines(line + "\n" + rest) == [line] + Lines(rest)
  {
    FindBreakAt(line, rest);
    var s := line + "\n" + rest;
    assert s[..|line|] == line && s[|line| + 1..] == rest;
  }

  /** Trimming the right end first makes no difference to trimming both. */
  lemma StripAfterRight(val: string, n: nat)
    requires n <= |val| && (forall i :: n <= i < |val| ==> Text.IsSpace(val[i]))
    requires n > 0 ==> !Text.IsSpace(val[n - 1])
    ensures Text.Strip(val[..n]) == Text.Strip(val)
  {
    var i, j := Text.SkipRight(val, Text.IsSpace, 0), Text.SkipRight(val[..n], Text.IsSpace, 0);
    if n > 0 {
      assert i <= n - 1 && j <= n - 1;
      assert val[..n][i] == val[i] && val[..n][j] == val[j];
      assert i == j;
    }
  }

  lemma FindInLine(key: string, rest: string)
    requires IsKey(key)
    ensures Text.Find(key + "=" + rest, '=') == |key|
  {
    var s := key + "=" + rest;
    assert s[|key|] == '=' && forall i :: 0 <= i < |key| ==> s[i] == key[i] && IsKeyChar(s[i]);
    Text.FindIs(s, '=', |key|);
  }

  lemma KeyIsStripped(key: string)
    requires IsKey(key)
    ensures Text.Strip(key) == key
  {
    assert IsKeyChar(key[0]) && IsKeyChar(key[|key| - 1]);
    Text.StripKeeps(key, Text.IsSpace);
  }

  /** Stripping a line only shortens its value, at the right end. */
  lemma StripLine(key: string, val: string) returns (n: nat)
    requires IsKey(key)
    ensures n <= |val| && Text.Strip(LineOf(key, val)) == key + "=" + val[..n]
    ensures Text.Strip(val[..n]) == Text.Strip(val)
  {
    var line := LineOf(key, val);
    assert IsKeyChar(line[0]) && line[0] == key[0] && line[|key|] == '=';
    assert Text.SkipRight(line, Text.IsSpace, 0) == 0;
    var k := Text.SkipLeft(line, Text.IsSpace, 0, |line|);
    assert k > |key|;
    n := k - |key| - 1;
    assert line[..k] == key + "=" + val[..n];
    assert forall l :: n <= l < |val| ==> val[l] == line[|key| + 1 + l];
    if n > 0 { assert val[n - 1] == line[k - 1]; }
    StripAfterRight(val, n);
  }

  lemma CleanedOfStripped(a: string, b: string)
    requires Text.Strip(a) == Text.Strip(b)
    ensures Cleaned(a) == Cleaned(b)
  {
  }

  /** Reading a stripped line that starts with a key and an equals sign. */
  lemma ParseStripped(line: string, key: string, rest: string)
    requires IsKey(key) && Text.Strip(line) == key + "=" + rest
    ensures ParseLine(line) == Some((key, Cleaned(rest)))
  {
    var t := Text.Strip(line);
    assert t[0] == key[0] && IsKeyChar(t[0]);
    FindInLine(key, rest);
    KeyIsStripped(key);
    assert t[..|key|] == key && t[|key| + 1..] == rest;
  }

  /** A printed line is read as its key and the cleaned value. */
  lemma LineRoundTrip(key: string, val: string)
    requires IsKey(key)
    ensures ParseLine(LineOf(key, val)) == Some((key, Cleaned(val)))
  {
    var n := StripLine(key, val);
    ParseStripped(LineOf(key, val), key, val[..n]);
    CleanedOfStripped(val[..n], val);
  }

  // ----- what other lines do -----

  /** Blank lines, comments, lines without an equals sign and unknown keys change nothing. */
  lemma OtherLinesIgnored(keys: seq<string>, values: Values, line: string)
    requires var t := Text.Strip(line); t == "" || t[0] == '#' || '=' !in t || ParseLine(line).value.0 !in keys
    ensures Absorb(keys, values, line) == values
  {
  }

  lemma FirstEquals(key: string, val: string)
    requires '=' !in key
    ensures var t := key + "=" + val;
      Text.Find(t, '=') == |key| < |t| && t[..|key|] == key && t[|key| + 1..] == val
  {
    var t := key + "=" + val;
    assert t[|key|] == '=' && forall k :: 0 <= k < |key| ==> t[k] == key[k];
    Text.FindIs(t, '=', |key|);
  }

  lemma ParsedAt(line: string, eq: nat)
    requires var t := Text.Strip(line); t != "" && t[0] != '#' && eq < |t| && Text.Find(t, '=') == eq
    ensures ParseLine(line) == Some((Text.Strip(Text.Strip(line)[..eq]), Cleaned(Text.Strip(line)[eq + 1..])))
  {
  }

  /** Any other line is read at its first equals sign: the key without blanks, the value cleaned. */
  lemma LineIsReadAtFirstEquals(line: string, key: string, val: string)
    requires Text.Strip(line) == key + "=" + val && '=' !in key && (key != "" ==> key[0] != '#')
    ensures ParseLine(line) == Some((Text.Strip(key), Cleaned(val)))
  {
    FirstEquals(key, val);
    var t := key + "=" + val;
    assert t[0] == if key == "" then '=' else key[0];
    ParsedAt(line, |key|);
  }

  predicate AllOf(s: string, c: char) {
    forall i :: 0 <= i < |s| ==> s[i] == c
  }

  predicate AllBlank(s: string) {
    forall i :: 0 <= i < |s| ==> Text.IsSpace(s[i])
  }

  /** Around a plain value, blanks outside double quotes outside single quotes are all taken off. */
  lemma QuotesAreTakenOff(blanks: string, quotes: string, ticks: string, val: string,
                          ticks': string, quotes': string, blanks': string)
    requires AllBlank(blanks) && AllOf(quotes, '"') && AllOf(ticks, '\'') && Plain(val) && val != ""
    requires AllOf(ticks', '\'') && AllOf(quotes', '"') && AllBlank(blanks')
    ensures Cleaned(blanks + (quotes + (ticks + val + ticks') + quotes') + blanks') == val
  {
    var inner := ticks + val + ticks';
    var middle := quotes + inner + quotes';
    Layer(ticks, val, ticks', '\'');
    Layer(quotes, inner, quotes', '"');
    Text.StripIs(blanks, middle, blanks', Text.IsSpace);
    Text.StripIs(quotes, inner, quotes', c => c == '"');
    Text.StripIs(ticks, val, ticks', c => c == '\'');
    CleanedSteps(blanks + middle + blanks', middle, inner, val);
  }

  lemma Layer(left: string, core: string, right: string, c: char)
    requires core != "" && AllOf(left, c) && AllOf(right, c)
    ensures var s := left + core + right;
      s[0] == (if left == "" then core[0] else c) && s[|s| - 1] == (if right == "" then core[|core| - 1] else c)
  {
  }

  lemma CleanedSteps(outer: string, middle: string, inner: string, val: string)
    requires Text.StripOf(outer, Text.IsSpace) == middle && Text.StripOf(middle, c => c == '"') == inner
    requires Text.StripOf(inner, c => c == '\'') == val
    ensures Cleaned(outer) == val
  {
  }

  lemma {:induction false} FindAnyBreak(line: string, brk: char, rest: string)
    requires NoBreak(line) && IsBreak(brk)
    ensures FindBreak(line + [brk] + rest) == |line|
  {
    if |line| > 0 {
      assert (line + [brk] + rest)[1..] == line[1..] + [brk] + rest;
      FindAnyBreak(line[1..], brk, rest);
    }
  }

  lemma BreakAt(line: string, brk: char, rest: string)
    requires NoBreak(line) && IsBreak(brk)
    ensures Lines(line + [brk] + rest) == [line] + Lines(rest)
  {
    FindAnyBreak(line, brk, rest);
    var s := line + [brk] + rest;
    assert s[..|line|] == line && s[|line| + 1..] == rest;
  }

  lemma TwoBreaks(line: string, brk: char, brk': char, rest: string)
    requires NoBreak(line) && IsBreak(brk) && IsBreak(brk')
    ensures Lines(line + [brk] + ([] + [brk'] + rest)) == [line] + ([""] + Lines(rest))
  {
    BreakAt(line, brk, [] + [brk'] + rest);
    BreakAt("", brk', rest);
  }

  lemma BothBreaks(line: string, rest: string)
    requires NoBreak(line)
    ensures Lines(line + "\r\n" + rest) == [line] + ([""] + Lines(rest))
  {
    TwoBreaks(line, '\r', '\n', rest);
    CrLf(line, rest);
  }

  lemma CrLf(line: string, rest: string)
    ensures line + "\r\n" + rest == line + ['\r'] + ([] + ['\n'] + rest)
  {
    assert line + "\r\n" + rest == line + ['\r'] + ([] + ['\n'] + rest);
  }

  lemma EmptyLineIgnored(keys: seq<string>, values: Values)
    ensures Absorb(keys, values, "") == values
  {
    assert Text.Strip("") == "";
  }

  /** Lines may end in a line feed, a carriage return, or both: what is read is the same. */
  lemma LineEndingsAgree(keys: seq<string>, values: Values, line: string, rest: string, ending: string)
    requires NoBreak(line) && (ending == "\n" || ending == "\r" || ending == "\r\n")
    ensures AbsorbAll(keys, values, Lines(line + ending + rest)) == AbsorbAll(keys, Absorb(keys, values, line), Lines(rest))
  {
    if ending == "\r\n" {
      BothBreaks(line, rest);
      EmptyLineIgnored(keys, Absorb(keys, values, line));
      AbsorbTwo(keys, values, line, Lines(rest));
    } else {
      BreakAt(line, ending[0], rest);
      assert ending == [ending[0]];
      AbsorbOne(keys, values, line, Lines(rest));
    }
  }

  lemma AbsorbOne(keys: seq<string>, values: Values, line: string, rest: seq<string>)
    ensures AbsorbAll(keys, values, [line] + rest) == AbsorbAll(keys, Absorb(keys, values, line), rest)
  {
    assert ([line] + rest)[1..] == rest;
  }

  lemma AbsorbTwo(keys: seq<string>, values: Values, line: string, rest: seq<string>)
    requires Absorb(keys, Absorb(keys, values, line), "") == Absorb(keys, values, line)
    ensures AbsorbAll(keys, values, [line] + ([""] + rest)) == AbsorbAll(keys, Absorb(keys, values, line), rest)
  {
    var all := [line] + ([""] + rest);
    assert all[1..] == [""] + rest && ([""] + rest)[1..] == rest;
  }

  predicate Saveable(keys: seq<string>, values: Values) {
    forall k :: k in keys ==> IsKey(k) && k in values && NoBreak(values[k])
  }

  lemma AbsorbLine(all: seq<string>, base: Values, key: string, val: string, cleaned: string)
    requires IsKey(key) && key in all && cleaned == Cleaned(val)
    ensures Absorb(all, base, LineOf(key, val)) == base[key := cleaned]
  {
    LineRoundTrip(key, val);
  }

  lemma AbsorbFirstLine(all: seq<string>, base: Values, key: string, val: string, cleaned: string, rest: string)
    requires IsKey(key) && key in all && NoBreak(val) && cleaned == Cleaned(val)
    ensures AbsorbAll(all, base, Lines(Ended(key, val) + rest)) ==
      AbsorbAll(all, base[key := cleaned], Lines(rest))
  {
    var line := LineOf(key, val);
    FirstLine(line, rest);
    AbsorbLine(all, base, key, val, cleaned);
    assert ([line] + Lines(rest))[1..] == Lines(rest);
  }

  /** `expected` holds the cleaned values. */
  ghost predicate AllCleaned(keys: seq<string>, values: Values, expected: Values)
    requires forall k :: k in keys ==> k in values
  {
    forall k :: k in keys ==> k in expected && expected[k] == Cleaned(values[k])
  }

  lemma {:induction false} LinesOfPrinted(all: seq<string>, keys: seq<string>, values: Values, base: Values, expected: Values)
    requires Saveable(keys, values) && (forall k :: k in keys ==> k in all) && AllCleaned(keys, values, expected)
    ensures var r := AbsorbAll(all, base, Lines(Printed(keys, values)));
      && (forall k :: k in keys ==> k in r && r[k] == expected[k])
      && (forall k :: k !in keys ==> (k in r <==> k in base) && (k in r ==> r[k] == base[k]))
  {
    if |keys| == 0 {
      assert Lines("") == [""];
    } else {
      var key := keys[0];
      assert key in keys && forall k :: k in keys <==> k == key || k in keys[1..];
      AbsorbFirstLine(all, base, key, values[key], expected[key], Printed(keys[1..], values));
      LinesOfPrinted(all, keys[1..], values, base[key := expected[key]], expected);
    }
  }

  /** A value is restored exactly when it has no outer blanks or quotes. */
  predicate Plain(val: string) {
    |val| > 0 ==> var a, b := val[0], val[|val| - 1];
      !Text.IsSpace(a) && !Text.IsSpace(b) && a != '"' && b != '"' && a != '\'' && b != '\''
  }

  lemma CleanedKeepsPlain(val: string)
    ensures Cleaned(val) == val <==> Plain(val)
  {
    var a := Text.Strip(val);
    var b := Text.StripOf(a, c => c == '"');
    if Plain(val) {
      Text.StripKeeps(val, Text.IsSpace);
      Text.StripKeeps(val, c => c == '"');
      Text.StripKeeps(val, c => c == '\'');
    } else if Cleaned(val) == val {
      assert |val| <= |b| <= |a| <= |val|;
      StripOfSameLength(val, Text.IsSpace);
      StripOfSameLength(a, c => c == '"');
    }
  }

  lemma StripOfSameLength(s: string, p: char -> bool)
    requires |Text.StripOf(s, p)| == |s|
    ensures Text.StripOf(s, p) == s
  {
  }

  /**
   Loading what `save` wrote gives every value without line breaks back cleaned, so it is restored
   exactly when it has no outer blanks or quotes.
   */
  lemma SaveLoadRoundTrip(keys: seq<string>, values: Values, base: Values, k: string)
    requires Saveable(keys, values) && k in keys
    ensures var r := AbsorbAll(keys, base, Lines(Printed(keys, values)));
      k in r && r[k] == Cleaned(values[k]) && (r[k] == values[k] <==> Plain(values[k]))
  {
    var expected := map i | i in keys :: Cleaned(values[i]);
    LinesOfPrinted(keys, keys, values, base, expected);
    CleanedKeepsPlain(values[k]);
  }
}
