/** Version texts by how they are spelled: which texts parse, to what, and what the policy then decides. */
module VersionText {
  import opened Prelude
  import opened SemVer
  import opened OtaPolicy
  import Text

  // ----- numerals -----

  lemma {:induction false} PrintedNumber(n: nat)
    ensures IsNumeric(Text.PrintNat(n)) && Text.Value(Text.PrintNat(n)) == n
    ensures n > 0 ==> Text.PrintNat(n)[0] != '0'
  {
    var s := Text.PrintNat(n);
    if n < 10 {
      assert Text.Value(s[..0]) == 0;
    } else {
      PrintedNumber(n / 10);
      assert s[..|s| - 1] == Text.PrintNat(n / 10);
    }
  }

  /** The numeric identifiers are exactly the printed natural numbers. */
  lemma NumericIsPrinted(s: string)
    ensures IsNumeric(s) <==> exists n: nat :: s == Text.PrintNat(n)
    ensures IsNumeric(s) ==> s == Text.PrintNat(Text.Value(s))
  {
    if IsNumeric(s) {
      PrintedNumber(Text.Value(s));
      NumeralIsUnique(s, Text.PrintNat(Text.Value(s)));
    }
    if n: nat :| s == Text.PrintNat(n) {
      PrintedNumber(n);
    }
  }

  // ----- identifiers -----

  predicate IsIdentifierChar(c: char) {
    '0' <= c <= '9' || 'A' <= c <= 'Z' || 'a' <= c <= 'z' || c == '-'
  }

  predicate IsIdentifier(s: string) {
    forall i :: 0 <= i < |s| ==> IsIdentifierChar(s[i])
  }

  /** One or more identifiers, not just an empty one. */
  predicate AreIdentifiers(ids: seq<string>) {
    ids != [] && ids != [""] && forall i :: 0 <= i < |ids| ==> IsIdentifier(ids[i])
  }

  predicate IsBuild(s: string) {
    |s| > 0 && forall i :: 0 <= i < |s| ==> IsIdentifierChar(s[i]) || s[i] == '.'
  }

  lemma SplitFirst(first: string, c: char, rest: string)
    requires c !in first
    ensures Text.Split(first + [c] + rest, c) == [first] + Text.Split(rest, c)
  {
    var s := first + [c] + rest;
    assert s[|first|] == c && forall k :: 0 <= k < |first| ==> s[k] == first[k];
    Text.FindIs(s, c, |first|);
    assert s[..|first|] == first && s[|first| + 1..] == rest;
  }

  lemma {:induction false} SplitJoined(parts: seq<string>, c: char)
    requires |parts| >= 1 && forall i :: 0 <= i < |parts| ==> c !in parts[i]
    ensures Text.Split(Text.Join(parts, c), c) == parts
    decreases |parts|
  {
    if |parts| > 1 {
      SplitJoined(parts[1..], c);
      SplitFirst(parts[0], c, Text.Join(parts[1..], c));
    } else {
      SplitWhole(parts[0], c);
    }
  }

  lemma {:induction false} JoinedChars(ids: seq<string>)
    requires |ids| >= 1 && forall i :: 0 <= i < |ids| ==> IsIdentifier(ids[i])
    ensures forall i :: 0 <= i < |Text.Join(ids, '.')| ==> IsLabelChar(Text.Join(ids, '.')[i])
    ensures Text.Join(ids, '.') == "" <==> ids == [""]
    decreases |ids|
  {
    if |ids| > 1 {
      JoinedChars(ids[1..]);
    }
  }

  lemma JoinedIsLabel(ids: seq<string>)
    requires AreIdentifiers(ids)
    ensures IsLabel(Text.Join(ids, '.')) && Text.Split(Text.Join(ids, '.'), '.') == ids
  {
    JoinedChars(ids);
    forall i | 0 <= i < |ids|
      ensures '.' !in ids[i]
    {
      assert forall k :: 0 <= k < |ids[i]| ==> IsIdentifierChar(ids[i][k]);
    }
    SplitJoined(ids, '.');
  }

  lemma {:induction false} PiecesAreIdentifiers(s: string)
    requires forall i :: 0 <= i < |s| ==> IsLabelChar(s[i])
    ensures forall i :: 0 <= i < |Text.Split(s, '.')| ==> IsIdentifier(Text.Split(s, '.')[i])
    decreases |s|
  {
    var i := Text.Find(s, '.');
    if i < |s| {
      PiecesAreIdentifiers(s[i + 1..]);
    }
  }

  lemma LabelIsJoined(s: string)
    requires IsLabel(s)
    ensures AreIdentifiers(Text.Split(s, '.')) && Text.Join(Text.Split(s, '.'), '.') == s
  {
    PiecesAreIdentifiers(s);
  }

  // ----- what follows the triple -----

  function BuildText(build: string): string {
    if build == "" then "" else "+" + build
  }

  function SuffixText(pre: seq<string>, build: string): string {
    (if pre == [] then "" else "-" + Text.Join(pre, '.')) + BuildText(build)
  }

  predicate SuffixValid(pre: seq<string>, build: string) {
    (pre == [] || AreIdentifiers(pre)) && (build == "" || IsBuild(build))
  }

  lemma ReadLabelled(joined: string, build: string)
    requires IsLabel(joined) && (build == "" || IsBuild(build))
    ensures ReadSuffix("-" + joined + BuildText(build)) == Some(joined)
  {
    var rest := "-" + joined + BuildText(build);
    assert forall k :: 1 <= k <= |joined| ==> rest[k] == joined[k - 1] && IsLabelChar(rest[k]);
    if build == "" {
      assert '+' !in rest;
      assert Text.Find(rest, '+') == |rest|;
      assert rest[1..|rest|] == joined;
    } else {
      var plus := |joined| + 1;
      assert rest[plus] == '+';
      Text.FindIs(rest, '+', plus);
      assert rest[1..plus] == joined && rest[plus + 1..] == build;
      assert IsLabel(build);
    }
  }

  lemma ReadBuildOnly(build: string)
    requires build == "" || IsBuild(build)
    ensures ReadSuffix(BuildText(build)) == Some("")
  {
    if build != "" {
      assert BuildText(build)[1..] == build && IsLabel(build);
    }
  }

  lemma ReadSpelledSuffix(pre: seq<string>, build: string)
    requires SuffixValid(pre, build)
    ensures var r := ReadSuffix(SuffixText(pre, build));
      r.Some? && pre == if r.value == "" then [] else Text.Split(r.value, '.')
  {
    if pre == [] {
      ReadBuildOnly(build);
      assert SuffixText(pre, build) == BuildText(build);
    } else {
      JoinedIsLabel(pre);
      ReadLabelled(Text.Join(pre, '.'), build);
    }
  }

  /** Every suffix that is read was spelled like that. */
  lemma SpellingOfSuffix(rest: string) returns (pre: seq<string>, build: string)
    requires ReadSuffix(rest).Some?
    ensures SuffixValid(pre, build) && rest == SuffixText(pre, build)
  {
    pre, build := [], "";
    if rest == "" {
    } else if rest[0] == '+' {
      build := rest[1..];
      assert rest == "+" + build;
    } else {
      var plus := Text.Find(rest, '+');
      var joined := rest[1..plus];
      LabelIsJoined(joined);
      pre := Text.Split(joined, '.');
      build := if plus < |rest| then rest[plus + 1..] else "";
      SuffixParts(rest, plus, joined, build);
    }
  }

  lemma SuffixParts(rest: string, plus: nat, joined: string, build: string)
    requires 0 < plus <= |rest| && rest[0] == '-' && joined == rest[1..plus] && IsLabel(joined)
    requires if plus < |rest| then rest[plus] == '+' && build == rest[plus + 1..] && IsLabel(build) else build == ""
    ensures rest == "-" + joined + BuildText(build) && (build == "" || IsBuild(build))
  {
    assert rest[..plus] == "-" + joined;
    if plus < |rest| {
      assert rest == rest[..plus] + ("+" + build);
    }
  }

  // ----- whole versions -----

  /** A way to write a version down; `build` is empty when there is no build metadata. */
  datatype Spelling = Spelling(v: bool, version: Version, build: string)
  {
    predicate Valid() {
      SuffixValid(version.pre, build)
    }
  }

  function SpelledDotted(sp: Spelling): Dotted {
    Dotted(Text.PrintNat(sp.version.major), Text.PrintNat(sp.version.minor), Text.PrintNat(sp.version.patch),
           SuffixText(sp.version.pre, sp.build))
  }

  /** An optional v, the three numbers, the prerelease after a hyphen, the build metadata after a plus. */
  function Spelled(sp: Spelling): string {
    (if sp.v then "v" else "") +
    (Text.PrintNat(sp.version.major) + ("." + (Text.PrintNat(sp.version.minor) + ("." +
     (Text.PrintNat(sp.version.patch) + SuffixText(sp.version.pre, sp.build))))))
  }

  lemma SuffixShape(pre: seq<string>, build: string)
    requires SuffixValid(pre, build)
    ensures var s := SuffixText(pre, build);
      |s| > 0 ==> !Text.IsDigit(s[0]) && !Text.IsSpace(s[|s| - 1])
  {
    var s := SuffixText(pre, build);
    if build != "" {
      assert s[|s| - 1] == build[|build| - 1];
    } else if pre != [] {
      JoinedIsLabel(pre);
      var joined := Text.Join(pre, '.');
      assert s[|s| - 1] == joined[|joined| - 1] && IsLabelChar(joined[|joined| - 1]);
    }
  }

  function Prefixed(v: bool, s: string): string {
    if v then "v" + s else s
  }

  predicate IsDotted(d: Dotted) {
    && Text.AllDigits(d.major) && Text.AllDigits(d.minor) && Text.AllDigits(d.patch)
    && |d.major| > 0 && |d.minor| > 0 && |d.patch| > 0
    && (|d.rest| > 0 ==> !Text.IsDigit(d.rest[0]) && !Text.IsSpace(d.rest[|d.rest| - 1]))
  }

  lemma AssembledEnds(d: Dotted)
    requires IsDotted(d)
    ensures var a := Assembled(d); |a| > 0 && Text.IsDigit(a[0]) && !Text.IsSpace(a[|a| - 1])
  {
    var a := Assembled(d);
    assert a[0] == d.major[0];
    var tail := d.patch + d.rest;
    assert a[|a| - 1] == tail[|tail| - 1];
    assert |d.rest| == 0 ==> tail[|tail| - 1] == d.patch[|d.patch| - 1];
  }

  lemma PrefixedIsMade(v: bool, d: Dotted)
    requires IsDotted(d)
    ensures MadeOf(Prefixed(v, Assembled(d)), d) && Trimmed(Prefixed(v, Assembled(d)))
  {
    AssembledEnds(d);
    PrefixDrops(v, Assembled(d));
  }

  lemma PrefixDrops(v: bool, a: string)
    requires |a| > 0 && Text.IsDigit(a[0]) && !Text.IsSpace(a[|a| - 1])
    ensures DropV(Prefixed(v, a)) == a && Trimmed(Prefixed(v, a))
  {
    assert v ==> ("v" + a)[1..] == a;
  }

  lemma SpelledIsPrefixed(sp: Spelling)
    ensures Spelled(sp) == Prefixed(sp.v, Assembled(SpelledDotted(sp)))
  {
  }

  lemma SpelledIsDotted(sp: Spelling)
    requires sp.Valid()
    ensures IsDotted(SpelledDotted(sp))
  {
    SuffixShape(sp.version.pre, sp.build);
  }

  lemma SpelledIsMade(sp: Spelling)
    requires sp.Valid()
    ensures MadeOf(Spelled(sp), SpelledDotted(sp)) && Trimmed(Spelled(sp))
  {
    SpelledIsPrefixed(sp);
    SpelledIsDotted(sp);
    PrefixedIsMade(sp.v, SpelledDotted(sp));
  }

  lemma SpelledIsStripped(sp: Spelling)
    requires sp.Valid()
    ensures Text.Strip(Spelled(sp)) == Spelled(sp)
  {
    SpelledIsMade(sp);
    TrimmedIsStripped(Spelled(sp));
  }

  lemma ParseSpelledDotted(sp: Spelling)
    requires sp.Valid()
    ensures ParseDotted(SpelledDotted(sp)) == Some(sp.version)
  {
    PrintedNumber(sp.version.major);
    PrintedNumber(sp.version.minor);
    PrintedNumber(sp.version.patch);
    ReadSpelledSuffix(sp.version.pre, sp.build);
  }

  /** Every spelling of a version, with any blanks around it, parses to that version. */
  lemma ParseSpelled(sp: Spelling, text: string)
    requires sp.Valid() && Text.Strip(text) == Spelled(sp)
    ensures Parse(text) == Some(sp.version)
  {
    SpelledIsMade(sp);
    ReadDottedOf(Spelled(sp), SpelledDotted(sp));
    ParseSpelledDotted(sp);
  }

  lemma SpellingOfDotted(d: Dotted, v: bool) returns (sp: Spelling)
    requires Text.AllDigits(d.major) && Text.AllDigits(d.minor) && Text.AllDigits(d.patch)
    requires ParseDotted(d).Some?
    ensures sp.Valid() && sp.v == v && SpelledDotted(sp) == d
  {
    NumericIsPrinted(d.major);
    NumericIsPrinted(d.minor);
    NumericIsPrinted(d.patch);
    var pre, build := SpellingOfSuffix(d.rest);
    sp := Spelling(v, Version(Text.Value(d.major), Text.Value(d.minor), Text.Value(d.patch), pre), build);
  }

  /** Every text that parses is, blanks aside, a spelling of the version it parses to. */
  lemma ParsedIsSpelled(text: string) returns (sp: Spelling)
    requires Parse(text).Some?
    ensures sp.Valid() && Text.Strip(text) == Spelled(sp) && Parse(text) == Some(sp.version)
  {
    var s := Text.Strip(text);
    var d := ReadDotted(s).value;
    DottedIsMadeOf(s);
    var v := DropV(s) != s;
    sp := SpellingOfDotted(d, v);
    DropIsPrefix(s, v);
    SpelledIsPrefixed(sp);
    ParseSpelled(sp, text);
  }

  lemma DropIsPrefix(s: string, v: bool)
    requires v == (DropV(s) != s)
    ensures s == Prefixed(v, DropV(s))
  {
    if v { assert s == "v" + s[1..]; }
  }

  // ----- build profiles -----

  /** The build profile a spelling carries: a prerelease that is just "dev" or "prod", without build metadata. */
  function Profile(sp: Spelling): string {
    if sp.build == "" && (sp.version.pre == ["dev"] || sp.version.pre == ["prod"]) then sp.version.pre[0] else ""
  }

  /** The spelling without its build profile. */
  function Released(sp: Spelling): Spelling {
    if Profile(sp) == "" then sp else sp.(version := sp.version.(pre := []))
  }

  lemma SuffixIsProfile(pre: seq<string>, build: string)
    requires SuffixValid(pre, build)
    ensures IsProfileSuffix(SuffixText(pre, build)) <==> build == "" && (pre == ["dev"] || pre == ["prod"])
    ensures IsProfileSuffix(SuffixText(pre, build)) ==> SuffixText(pre, build)[1..] == pre[0]
  {
    var rest := SuffixText(pre, build);
    if build == "" && (pre == ["dev"] || pre == ["prod"]) {
      assert rest == "-" + pre[0];
    }
    if IsProfileSuffix(rest) {
      ProfileSuffix(rest);
      ReadSpelledSuffix(pre, build);
      assert pre == [rest[1..]];
      assert |rest| == 1 + |pre[0]| + |BuildText(build)|;
    }
  }

  lemma TrimmedProfile(text: string, d: Dotted)
    requires Trimmed(text) && MadeOf(text, d)
    ensures ProfileOf(text) == (if IsProfileSuffix(d.rest) then d.rest[1..] else "") && |d.rest| <= |text|
    ensures HasProfile(text) == IsProfileSuffix(d.rest)
    ensures StripProfile(text) == if IsProfileSuffix(d.rest) then text[..|text| - |d.rest|] else text
  {
    TrimmedIsStripped(text);
    ProfileIsCut(text, d);
  }

  lemma ProfileOfSpelled(sp: Spelling)
    requires sp.Valid()
    ensures ProfileOf(Spelled(sp)) == Profile(sp)
    ensures HasProfile(Spelled(sp)) <==> Profile(sp) != ""
  {
    SpelledIsMade(sp);
    TrimmedProfile(Spelled(sp), SpelledDotted(sp));
    SuffixIsProfile(sp.version.pre, sp.build);
  }

  lemma CutPrefixed(v: bool, d: Dotted)
    ensures var s := Prefixed(v, Assembled(d));
      |d.rest| <= |s| && s[..|s| - |d.rest|] == Prefixed(v, Assembled(d.(rest := "")))
  {
    AssembledRest(d);
  }

  lemma StripPrefixed(v: bool, d: Dotted)
    requires IsDotted(d)
    ensures var text := Prefixed(v, Assembled(d));
      StripProfile(text) == if IsProfileSuffix(d.rest) then Prefixed(v, Assembled(d.(rest := ""))) else text
  {
    PrefixedIsMade(v, d);
    TrimmedProfile(Prefixed(v, Assembled(d)), d);
    CutPrefixed(v, d);
  }

  lemma ReleasedIsCut(sp: Spelling)
    requires sp.Valid()
    ensures Released(sp).Valid()
    ensures SpelledDotted(Released(sp)) ==
      if IsProfileSuffix(SpelledDotted(sp).rest) then SpelledDotted(sp).(rest := "") else SpelledDotted(sp)
  {
    SuffixIsProfile(sp.version.pre, sp.build);
  }

  /** Stripping the profile off a spelled version spells the release. */
  lemma StripSpelled(sp: Spelling)
    requires sp.Valid()
    ensures StripProfile(Spelled(sp)) == Spelled(Released(sp)) && Released(sp).Valid()
  {
    SpelledIsPrefixed(sp);
    SpelledIsPrefixed(Released(sp));
    SpelledIsDotted(sp);
    ReleasedIsCut(sp);
    StripPrefixed(sp.v, SpelledDotted(sp));
  }

  lemma ParseOfSpelled(sp: Spelling)
    requires sp.Valid()
    ensures Parse(Spelled(sp)) == Some(sp.version)
    ensures Parse(StripProfile(Spelled(sp))) == Some(Released(sp).version)
  {
    SpelledIsStripped(sp);
    ParseSpelled(sp, Spelled(sp));
    StripSpelled(sp);
    SpelledIsStripped(Released(sp));
    ParseSpelled(Released(sp), Spelled(Released(sp)));
  }

  // ----- decisions -----

  /** Two spellings match exactly when they are one version, or one release once the profiles are gone. */
  predicate SameImage(a: Spelling, b: Spelling) {
    a.version == b.version || Released(a).version == Released(b).version
  }

  lemma MatchSpelled(a: Spelling, b: Spelling)
    requires a.Valid() && b.Valid()
    ensures VersionsMatch(Spelled(a), Spelled(b)) <==> SameImage(a, b)
  {
    ParseOfSpelled(a);
    ParseOfSpelled(b);
    MatchMeans(Spelled(a), Spelled(b));
  }

  /** The four relations between labels, through clause 11's precedence. */
  lemma LabelsClassify(a: Label, b: Label)
    requires b.text != "" || b.version.None?
    ensures Classify(a, b) == Unknown <==> !LabelsMatch(a, b) && (a.version.None? || b.version.None?)
    ensures Classify(a, b) == Same <==> LabelsMatch(a, b)
    ensures Classify(a, b) == Downgrade <==>
      !LabelsMatch(a, b) && a.version.Some? && b.version.Some? && Precedes(b.version.value, a.version.value)
    ensures Classify(a, b) == Upgrade <==>
      !LabelsMatch(a, b) && a.version.Some? && b.version.Some? && Precedes(a.version.value, b.version.value)
  {
    CompareParsedIsAntisymmetric(a.version, b.version);
    CompareParsedIsAntisymmetric(b.version, a.version);
    if a.version.Some? && b.version.Some? {
      CompareIsPrecedence(b.version.value, a.version.value);
    }
  }

  lemma LabelOfSpelled(sp: Spelling, text: string)
    requires sp.Valid() && Text.Strip(text) == Spelled(sp)
    ensures LabelOf(text).text == Spelled(sp) != "" && LabelOf(text).version == Some(sp.version)
  {
    ParseOfSpelled(sp);
    EmptyDoesNotParse();
  }

  /**
   How any two spelled versions, with any blanks around them, are related: the same image, or else an
   upgrade or a downgrade by clause 11's precedence; never unknown.
   */
  lemma ClassifySpelled(a: Spelling, b: Spelling, current: string, target: string)
    requires a.Valid() && b.Valid() && Text.Strip(current) == Spelled(a) && Text.Strip(target) == Spelled(b)
    ensures ClassifyUpdate(current, target) ==
      if SameImage(a, b) then Same else if Precedes(b.version, a.version) then Downgrade else Upgrade
  {
    LabelOfSpelled(a, current);
    LabelOfSpelled(b, target);
    MatchSpelled(a, b);
    LabelsClassify(LabelOf(current), LabelOf(target));
  }

  lemma BlockedSpelled(a: Spelling, b: Spelling)
    requires a.Valid() && b.Valid()
    ensures IsBlockedDowngrade(Spelled(a), Spelled(b)) <==> !SameImage(a, b) && Precedes(b.version, a.version)
  {
    SpelledIsStripped(a);
    SpelledIsStripped(b);
    ClassifySpelled(a, b, Spelled(a), Spelled(b));
  }

  /** For any two texts: a downgrade is blocked only between texts that spell versions, and exactly when they say so. */
  lemma BlockedMeansOlder(current: string, target: string) returns (a: Spelling, b: Spelling)
    ensures IsBlockedDowngrade(current, target) ==> Parse(current).Some? && Parse(target).Some?
    ensures Parse(current).Some? && Parse(target).Some? ==>
      && a.Valid() && b.Valid() && Text.Strip(current) == Spelled(a) && Text.Strip(target) == Spelled(b)
      && (IsBlockedDowngrade(current, target) <==> !SameImage(a, b) && Precedes(b.version, a.version))
  {
    ParseIgnoresBlanks(current);
    ParseIgnoresBlanks(target);
    if Parse(current).Some? && Parse(target).Some? {
      a := ParsedIsSpelled(current);
      b := ParsedIsSpelled(target);
      ClassifySpelled(a, b, current, target);
    } else {
      a, b := Spelling(false, Version(0, 0, 0, []), ""), Spelling(false, Version(0, 0, 0, []), "");
      EmptyDoesNotParse();
      LabelsClassify(LabelOf(current), LabelOf(target));
    }
  }
}
