/** Version texts, and the decision whether an update bundle may be installed. */
module OtaPolicy {
  import opened Prelude
  import opened SemVer
  import Text

  // ----- reading a version -----

  function DigitRun(s: string): (n: nat)
    ensures n <= |s| && Text.AllDigits(s[..n])
    ensures n < |s| ==> !Text.IsDigit(s[n])
  {
    if |s| == 0 || !Text.IsDigit(s[0]) then 0
    else
      var n := 1 + DigitRun(s[1..]);
      assert s[..n] == [s[0]] + s[1..][..n - 1];
      n
  }

  function DropV(s: string): string {
    if |s| > 0 && s[0] == 'v' then s[1..] else s
  }

  /** Three digit runs separated by dots, and whatever follows the third. */
  datatype Dotted = Dotted(major: string, minor: string, patch: string, rest: string)

  function ReadNumber(s: string): (r: Option<(string, string)>)
    ensures r.Some? ==> Text.AllDigits(r.value.0) && |r.value.0| > 0 && s == r.value.0 + r.value.1
    ensures r.Some? && |r.value.1| > 0 ==> !Text.IsDigit(r.value.1[0])
  {
    var n := DigitRun(s);
    if n == 0 then None else Some((s[..n], s[n..]))
  }

  function ReadDot(s: string): (r: Option<string>)
    ensures r.Some? ==> s == "." + r.value
  {
    if |s| > 0 && s[0] == '.' then Some(s[1..]) else None
  }

  /** A dot and a digit run. */
  function ReadDotNumber(s: string): (r: Option<(string, string)>)
    ensures r.Some? ==> Text.AllDigits(r.value.0) && |r.value.0| > 0 && s == "." + (r.value.0 + r.value.1)
    ensures r.Some? && |r.value.1| > 0 ==> !Text.IsDigit(r.value.1[0])
  {
    var dot := ReadDot(s);
    if dot.None? then None else ReadNumber(dot.value)
  }

  function ReadDotted(text: string): (r: Option<Dotted>)
    ensures r.Some? ==>
      var d := r.value;
      && Text.AllDigits(d.major) && Text.AllDigits(d.minor) && Text.AllDigits(d.patch)
      && |d.major| > 0 && |d.minor| > 0 && |d.patch| > 0
      && DropV(text) == d.major + ("." + (d.minor + ("." + (d.patch + d.rest))))
      && (|d.rest| > 0 ==> !Text.IsDigit(d.rest[0])) && |d.rest| < |text|
  {
    var a := ReadNumber(DropV(text));
    if a.None? then None else
    var b := ReadDotNumber(a.value.1);
    if b.None? then None else
    var c := ReadDotNumber(b.value.1);
    if c.None? then None else
    Some(Dotted(a.value.0, b.value.0, c.value.0, c.value.1))
  }

  predicate IsLabelChar(c: char) {
    '0' <= c <= '9' || 'A' <= c <= 'Z' || 'a' <= c <= 'z' || c == '.' || c == '-'
  }

  predicate IsLabel(s: string) {
    |s| > 0 && forall i :: 0 <= i < |s| ==> IsLabelChar(s[i])
  }

  /** The prerelease text of what follows the triple, or None when that is malformed. */
  function ReadSuffix(rest: string): Option<string> {
    if rest == "" then Some("")
    else if rest[0] == '+' then if IsLabel(rest[1..]) then Some("") else None
    else if rest[0] != '-' then None
    else
      var plus := Text.Find(rest, '+');
      var pre := rest[1..plus];
      if !IsLabel(pre) then None
      else if plus < |rest| && !IsLabel(rest[plus + 1..]) then None
      else Some(pre)
  }

  /** Parsing, once the digit runs are known. */
  function ParseDotted(d: Dotted): Option<Version>
    requires Text.AllDigits(d.major) && Text.AllDigits(d.minor) && Text.AllDigits(d.patch)
  {
    if !IsNumeric(d.major) || !IsNumeric(d.minor) || !IsNumeric(d.patch) then None
    else
      var pre := ReadSuffix(d.rest);
      if pre.None? then None
      else Some(Version(Text.Value(d.major), Text.Value(d.minor), Text.Value(d.patch),
                        if pre.value == "" then [] else Text.Split(pre.value, '.')))
  }

  function Parse(value: string): Option<Version> {
    var d := ReadDotted(Text.Strip(value));
    if d.None? then None else ParseDotted(d.value)
  }

  function CompareParsed(l: Option<Version>, r: Option<Version>): Option<int> {
    if l.None? || r.None? then None else Some(Compare(l.value, r.value))
  }

  function CompareVersions(left: string, right: string): Option<int> {
    CompareParsed(Parse(left), Parse(right))
  }

  // ----- build profiles -----

  predicate IsProfileSuffix(rest: string)
    ensures IsProfileSuffix(rest) ==> |rest| > 1
  {
    rest == "-dev" || rest == "-prod"
  }

  predicate IsProfiled(d: Option<Dotted>) {
    d.Some? && IsProfileSuffix(d.value.rest)
  }

  function CutSuffix(version: string, text: string, d: Option<Dotted>): string
    requires d.Some? ==> |d.value.rest| <= |text|
  {
    if IsProfiled(d) then text[..|text| - |d.value.rest|] else version
  }

  predicate HasProfile(version: string) {
    IsProfiled(ReadDotted(Text.Strip(version)))
  }

  function StripProfile(version: string): string {
    CutSuffix(version, Text.Strip(version), ReadDotted(Text.Strip(version)))
  }

  function ProfileName(d: Option<Dotted>): string {
    if IsProfiled(d) then d.value.rest[1..] else ""
  }

  function ProfileOf(version: string): string {
    ProfileName(ReadDotted(Text.Strip(version)))
  }

  // ----- the decision -----

  /** Everything the policy looks at in a version text: as given, and without its build profile. */
  datatype Label = Label(text: string, version: Option<Version>, base: string, baseVersion: Option<Version>)

  function Read(text: string): Label {
    Label(text, Parse(text), StripProfile(text), Parse(StripProfile(text)))
  }

  predicate Agree(a: string, v: Option<Version>, b: string, w: Option<Version>) {
    a == b || CompareParsed(v, w) == Some(0)
  }

  predicate LabelsMatch(actual: Label, expected: Label) {
    if expected.text == "" then false
    else if Agree(actual.text, actual.version, expected.text, expected.version) then true
    else Agree(actual.base, actual.baseVersion, expected.base, expected.baseVersion)
  }

  predicate VersionsMatch(actual: string, expected: string) {
    LabelsMatch(Read(actual), Read(expected))
  }

  datatype Relation = Same | Unknown | Downgrade | Upgrade

  function Classify(current: Label, target: Label): Relation {
    if LabelsMatch(current, target) then Same
    else
      match CompareParsed(target.version, current.version)
      case None => Unknown
      case Some(o) => if o < 0 then Downgrade else if o == 0 then Same else Upgrade
  }

  function ClassifyUpdate(current: string, target: string): Relation {
    Classify(Read(Text.Strip(current)), Read(Text.Strip(target)))
  }

  predicate IsBlockedDowngrade(current: string, target: string) {
    ClassifyUpdate(current, target) == Downgrade
  }

  // ----- what reading guarantees -----

  /** How a version and its profile-free form are related; `profile` is "dev", "prod" or "". */
  predicate Consistent(l: Label, profile: string) {
    && (l.text == "" <==> l.base == "")
    && (profile == "" ==> l.base == l.text && l.baseVersion == l.version)
    && (l.version.None? ==> l.baseVersion.None?)
    && (profile != "" && l.version.Some? ==>
          && (profile == "dev" || profile == "prod")
          && l.version.value.pre == [profile]
          && l.baseVersion == Some(l.version.value.(pre := [])))
  }

  lemma {:induction false} DigitRunStops(a: string, rest: string)
    requires Text.AllDigits(a) && (|rest| > 0 ==> !Text.IsDigit(rest[0]))
    ensures DigitRun(a + rest) == |a|
  {
    if |a| == 0 {
      assert a + rest == rest;
    } else {
      assert (a + rest)[1..] == a[1..] + rest;
      DigitRunStops(a[1..], rest);
    }
  }

  lemma ReadNumberOf(a: string, rest: string)
    requires |a| > 0 && Text.AllDigits(a) && (|rest| > 0 ==> !Text.IsDigit(rest[0]))
    ensures ReadNumber(a + rest) == Some((a, rest))
  {
    DigitRunStops(a, rest);
    assert (a + rest)[..|a|] == a && (a + rest)[|a|..] == rest;
  }

  lemma ReadDotNumberOf(a: string, rest: string)
    requires |a| > 0 && Text.AllDigits(a) && (|rest| > 0 ==> !Text.IsDigit(rest[0]))
    ensures ReadDotNumber("." + (a + rest)) == Some((a, rest))
  {
    assert ("." + (a + rest))[1..] == a + rest;
    ReadNumberOf(a, rest);
  }

  function Assembled(d: Dotted): string {
    d.major + ("." + (d.minor + ("." + (d.patch + d.rest))))
  }

  /** `d` is how `text` is made up. */
  predicate MadeOf(text: string, d: Dotted) {
    && Text.AllDigits(d.major) && Text.AllDigits(d.minor) && Text.AllDigits(d.patch)
    && |d.major| > 0 && |d.minor| > 0 && |d.patch| > 0
    && (|d.rest| > 0 ==> !Text.IsDigit(d.rest[0]))
    && DropV(text) == Assembled(d)
  }

  lemma ReadDottedSteps(text: string, d: Dotted, afterMajor: string, afterMinor: string)
    requires ReadNumber(DropV(text)) == Some((d.major, afterMajor))
    requires ReadDotNumber(afterMajor) == Some((d.minor, afterMinor))
    requires ReadDotNumber(afterMinor) == Some((d.patch, d.rest))
    ensures ReadDotted(text) == Some(d)
  {
  }

  lemma ReadDottedOf(text: string, d: Dotted)
    requires MadeOf(text, d)
    ensures ReadDotted(text) == Some(d)
  {
    var afterMinor := "." + (d.patch + d.rest);
    var afterMajor := "." + (d.minor + afterMinor);
    ReadNumberOf(d.major, afterMajor);
    ReadDotNumberOf(d.minor, afterMinor);
    ReadDotNumberOf(d.patch, d.rest);
    ReadDottedSteps(text, d, afterMajor, afterMinor);
  }

  predicate Trimmed(s: string) {
    |s| > 0 ==> !Text.IsSpace(s[0]) && !Text.IsSpace(s[|s| - 1])
  }

  lemma TrimmedIsStripped(s: string)
    requires Trimmed(s)
    ensures Text.Strip(s) == s
  {
    Text.StripKeeps(s, Text.IsSpace);
  }

  lemma AssembledRest(d: Dotted)
    ensures Assembled(d) == Assembled(d.(rest := "")) + d.rest
  {
    var e := d.(rest := "");
    assert d.patch + d.rest == (e.patch + e.rest) + d.rest;
  }

  lemma CutRest(text: string, d: Dotted)
    requires DropV(text) == Assembled(d) && |d.patch| > 0
    ensures |d.rest| < |text| && DropV(text[..|text| - |d.rest|]) == Assembled(d.(rest := ""))
    ensures text[|text| - |d.rest| - 1] == d.patch[|d.patch| - 1]
  {
    AssembledRest(d);
    var e := Assembled(d.(rest := ""));
    assert e[|e| - 1] == d.patch[|d.patch| - 1];
  }

  /** Cutting off what follows the third digit run leaves a text with the same digit runs, still trimmed. */
  lemma BaseOfDotted(text: string, d: Dotted, base: string)
    requires MadeOf(text, d) && Trimmed(text)
    requires |d.rest| <= |text| && base == text[..|text| - |d.rest|]
    ensures base != "" && MadeOf(base, d.(rest := "")) && Trimmed(base)
  {
    CutRest(text, d);
    assert base[0] == text[0] && Text.IsDigit(base[|base| - 1]);
  }

  lemma SplitWhole(s: string, c: char)
    requires c !in s
    ensures Text.Split(s, c) == [s]
  {
  }

  lemma ProfileSuffix(rest: string)
    requires IsProfileSuffix(rest)
    ensures ReadSuffix(rest) == Some(rest[1..]) && Text.Split(rest[1..], '.') == [rest[1..]]
    ensures rest[1..] == "dev" || rest[1..] == "prod"
    ensures ReadSuffix("") == Some("")
  {
    assert "-dev"[1..] == "dev" && "-prod"[1..] == "prod";
    assert '+' !in rest;
    assert rest[1..|rest|] == rest[1..];
    SplitWhole(rest[1..], '.');
  }

  lemma ParseTrimmed(text: string, d: Dotted)
    requires Trimmed(text) && MadeOf(text, d)
    ensures Parse(text) == ParseDotted(d)
  {
    TrimmedIsStripped(text);
    ReadDottedOf(text, d);
  }

  lemma ParseWithoutProfile(d: Dotted)
    requires Text.AllDigits(d.major) && Text.AllDigits(d.minor) && Text.AllDigits(d.patch) && IsProfileSuffix(d.rest)
    ensures ParseDotted(d).None? ==> ParseDotted(d.(rest := "")).None?
    ensures ParseDotted(d).Some? ==>
      && ParseDotted(d).value.pre == [d.rest[1..]]
      && ParseDotted(d.(rest := "")) == Some(ParseDotted(d).value.(pre := []))
    ensures d.rest[1..] == "dev" || d.rest[1..] == "prod"
  {
    ProfileSuffix(d.rest);
  }

  lemma DottedIsMadeOf(text: string)
    requires ReadDotted(text).Some?
    ensures MadeOf(text, ReadDotted(text).value)
  {
  }

  lemma ProfileIsCut(version: string, d: Dotted)
    requires MadeOf(Text.Strip(version), d)
    ensures HasProfile(version) == IsProfileSuffix(d.rest) && |d.rest| <= |Text.Strip(version)|
    ensures HasProfile(version) ==> d.rest[1..] == ProfileOf(version)
    ensures var text := Text.Strip(version);
      StripProfile(version) == if HasProfile(version) then text[..|text| - |d.rest|] else version
  {
    ReadDottedOf(Text.Strip(version), d);
  }

  lemma StripIsTrimmed(s: string)
    ensures Trimmed(Text.Strip(s))
  {
  }

  lemma ParseIgnoresBlanks(s: string)
    ensures Parse(Text.Strip(s)) == Parse(s)
  {
    TrimmedIsStripped(Text.Strip(s));
  }

  lemma ProfiledIsConsistent(version: string, d: Dotted)
    requires MadeOf(Text.Strip(version), d) && IsProfileSuffix(d.rest)
    ensures HasProfile(version) && Consistent(Read(version), ProfileOf(version))
  {
    var text := Text.Strip(version);
    ProfileIsCut(version, d);
    StripIsTrimmed(version);
    var base := StripProfile(version);
    BaseOfDotted(text, d, base);
    ParseTrimmed(text, d);
    ParseIgnoresBlanks(version);
    ParseTrimmed(base, d.(rest := ""));
    ParseWithoutProfile(d);
  }

  /** Reading any text, with or without outer blanks, keeps the promise made above. */
  lemma ReadIsConsistent(version: string)
    ensures Consistent(Read(version), ProfileOf(version))
  {
    if HasProfile(version) {
      var d := ReadDotted(Text.Strip(version)).value;
      DottedIsMadeOf(Text.Strip(version));
      ProfiledIsConsistent(version, d);
    }
  }

  // ----- the relation between two labels -----

  function Negated(o: Option<int>): Option<int> {
    if o.Some? then Some(-o.value) else None
  }

  lemma CompareParsedIsAntisymmetric(v: Option<Version>, w: Option<Version>)
    ensures CompareParsed(v, w).Some? <==> v.Some? && w.Some?
    ensures CompareParsed(w, v) == Negated(CompareParsed(v, w))
    ensures CompareParsed(v, w) == Some(0) <==> v.Some? && v == w
    ensures CompareParsed(v, w).Some? ==> -1 <= CompareParsed(v, w).value <= 1
  {
    if v.Some? && w.Some? {
      CompareIsTotal(v.value, w.value, v.value);
    }
  }

  lemma CompareParsedIsTransitive(u: Option<Version>, v: Option<Version>, w: Option<Version>)
    ensures AtMost(CompareParsed(u, v)) && AtMost(CompareParsed(v, w)) ==> AtMost(CompareParsed(u, w))
  {
    if u.Some? && v.Some? && w.Some? {
      CompareIsTotal(u.value, v.value, w.value);
    }
  }

  predicate AtMost(o: Option<int>) {
    o.Some? && o.value <= 0
  }

  /** On version texts the comparison is defined exactly on parseable ones, and zero exactly on texts of one version. */
  lemma CompareVersionsZero(a: string, b: string)
    ensures CompareVersions(a, b).Some? <==> Parse(a).Some? && Parse(b).Some?
    ensures CompareVersions(a, b) == Some(0) <==> Parse(a).Some? && Parse(a) == Parse(b)
  {
    CompareParsedIsAntisymmetric(Parse(a), Parse(b));
  }

  /** It is antisymmetric in sign ... */
  lemma CompareVersionsIsAntisymmetric(a: string, b: string)
    ensures CompareVersions(b, a) == Negated(CompareVersions(a, b))
  {
    var v, w := Parse(a), Parse(b);
    assert CompareVersions(a, b) == CompareParsed(v, w) && CompareVersions(b, a) == CompareParsed(w, v);
    CompareParsedIsAntisymmetric(v, w);
  }

  /** ... and transitive: a total preorder. */
  lemma CompareVersionsIsTransitive(a: string, b: string, c: string)
    ensures AtMost(CompareVersions(a, b)) && AtMost(CompareVersions(b, c)) ==> AtMost(CompareVersions(a, c))
  {
    CompareParsedIsTransitive(Parse(a), Parse(b), Parse(c));
  }

  lemma LabelsSwap(a: Label, b: Label)
    requires (a.text == "" <==> a.base == "") && (b.text == "" <==> b.base == "")
    requires (a.text == "" ==> a.version.None? && a.baseVersion.None?)
    requires (b.text == "" ==> b.version.None? && b.baseVersion.None?)
    ensures LabelsMatch(a, b) == LabelsMatch(b, a)
    ensures Classify(a, b) == Upgrade <==> Classify(b, a) == Downgrade
    ensures Classify(a, b) == Same <==> Classify(b, a) == Same
    ensures Classify(a, b) == Unknown <==> Classify(b, a) == Unknown
  {
    CompareParsedIsAntisymmetric(a.version, b.version);
    CompareParsedIsAntisymmetric(a.baseVersion, b.baseVersion);
  }

  lemma EmptyDoesNotParse()
    ensures Read("") == Label("", None, "", None)
  {
    assert Text.Strip("") == "";
  }

  /** Swapping the two versions turns an upgrade into a downgrade and leaves "same" and "unknown" alone. */
  lemma UpgradeIsReversedDowngrade(a: string, b: string)
    ensures ClassifyUpdate(a, b) == Upgrade <==> ClassifyUpdate(b, a) == Downgrade
    ensures ClassifyUpdate(a, b) == Same <==> ClassifyUpdate(b, a) == Same
    ensures ClassifyUpdate(a, b) == Unknown <==> ClassifyUpdate(b, a) == Unknown
  {
    var x, y := Text.Strip(a), Text.Strip(b);
    ReadIsConsistent(x);
    ReadIsConsistent(y);
    EmptyDoesNotParse();
    LabelsSwap(Read(x), Read(y));
  }

  // ----- chains of installs -----

  /** (major, minor, patch) does not decrease. */
  ghost predicate TripleAtMost(v: Version, w: Version) {
    TriplePrecedes(v, w) || SameTriple(v, w)
  }

  /**
   When an allowed install lowers the precedence: the new label carries a build profile, and the
   running one is the bare release or the later of the two profiles.
   */
  ghost predicate ProfileDrop(v: Version, p: string, w: Version, q: string) {
    SameTriple(v, w) && q != "" && (v.pre == [] || (p == "prod" && q == "dev"))
  }

  lemma ProfilesCompare()
    ensures ComparePrerelease(["dev"], ["prod"]) == -1 && ComparePrerelease(["prod"], ["dev"]) == 1
    ensures ComparePrerelease(["dev"], ["dev"]) == 0 && ComparePrerelease(["prod"], ["prod"]) == 0
  {
    assert !IsNumeric("dev") && !IsNumeric("prod");
    assert CompareIdentifier("dev", "prod") == -1 && CompareIdentifier("prod", "dev") == 1;
  }

  lemma StepBetweenLabels(a: Label, p: string, b: Label, q: string)
    requires Consistent(a, p) && Consistent(b, q) && a.version.Some? && b.version.Some?
    requires a.text != "" && b.text != ""
    requires a.text == b.text ==> a.version == b.version
    requires a.base == b.base ==> a.baseVersion == b.baseVersion
    ensures var v, w := a.version.value, b.version.value;
      && (Classify(a, b) != Downgrade ==> TripleAtMost(v, w))
      && (Classify(a, b) != Downgrade && Compare(w, v) < 0 <==> ProfileDrop(v, p, w, q))
  {
    var v, w := a.version.value, b.version.value;
    CompareParsedIsAntisymmetric(a.version, b.version);
    CompareParsedIsAntisymmetric(a.baseVersion, b.baseVersion);
    CompareParsedIsAntisymmetric(b.version, a.version);
    ProfilesCompare();
  }

  /** The label under which a device files a version text. */
  function LabelOf(version: string): Label {
    Read(Text.Strip(version))
  }

  /** An allowed install keeps the triple from decreasing, and lowers the precedence exactly by a profile drop. */
  lemma StepBetweenTexts(a: string, b: string)
    ensures var v, w := LabelOf(a).version, LabelOf(b).version;
      v.Some? && w.Some? ==>
        && (!IsBlockedDowngrade(a, b) ==> TripleAtMost(v.value, w.value))
        && (!IsBlockedDowngrade(a, b) && Compare(w.value, v.value) < 0 <==>
              ProfileDrop(v.value, ProfileOf(Text.Strip(a)), w.value, ProfileOf(Text.Strip(b))))
  {
    ReadIsConsistent(Text.Strip(a));
    ReadIsConsistent(Text.Strip(b));
    EmptyDoesNotParse();
    if LabelOf(a).version.Some? && LabelOf(b).version.Some? {
      StepBetweenLabels(LabelOf(a), ProfileOf(Text.Strip(a)), LabelOf(b), ProfileOf(Text.Strip(b)));
    }
  }

  lemma {:induction false} TriplesClimb(vs: seq<Version>, i: nat, j: nat)
    requires i <= j < |vs| && forall k :: 0 < k < |vs| ==> TripleAtMost(vs[k - 1], vs[k])
    ensures TripleAtMost(vs[i], vs[j])
    decreases j - i
  {
    if i < j {
      TriplesClimb(vs, i, j - 1);
    }
  }

  lemma {:induction false} VersionsClimb(vs: seq<Version>, i: nat, j: nat)
    requires i <= j < |vs| && forall k :: 0 < k < |vs| ==> Compare(vs[k - 1], vs[k]) <= 0
    ensures Compare(vs[i], vs[j]) <= 0
    decreases j - i
  {
    if i == j {
      CompareIsTotal(vs[i], vs[i], vs[i]);
    } else {
      VersionsClimb(vs, i, j - 1);
      CompareIsTotal(vs[i], vs[j - 1], vs[j]);
    }
  }

  /** `vs` are the parsed versions of a chain of installs, each allowed on top of the one before. */
  ghost predicate IsInstallChain(texts: seq<string>, vs: seq<Version>) {
    && |texts| == |vs|
    && (forall i :: 0 <= i < |vs| ==> LabelOf(texts[i]).version == Some(vs[i]))
    && (forall i :: 0 < i < |vs| ==> !IsBlockedDowngrade(texts[i - 1], texts[i]))
  }

  /** Along every chain of allowed installs whose versions parse, (major, minor, patch) never decreases. */
  lemma TripleNeverDecreases(texts: seq<string>, vs: seq<Version>, i: nat, j: nat)
    requires i <= j < |vs|
    ensures IsInstallChain(texts, vs) ==> TripleAtMost(vs[i], vs[j])
  {
    if IsInstallChain(texts, vs) {
      forall k | 0 < k < |vs|
        ensures TripleAtMost(vs[k - 1], vs[k])
      {
        StepBetweenTexts(texts[k - 1], texts[k]);
      }
      TriplesClimb(vs, i, j);
    }
  }

  ghost predicate NoProfiles(texts: seq<string>) {
    forall k :: 0 <= k < |texts| ==> ProfileOf(Text.Strip(texts[k])) == ""
  }

  /** Without build profiles the full precedence never decreases either. */
  lemma PrecedenceNeverDecreases(texts: seq<string>, vs: seq<Version>, i: nat, j: nat)
    requires i <= j < |vs|
    ensures IsInstallChain(texts, vs) && NoProfiles(texts) ==> Compare(vs[i], vs[j]) <= 0
  {
    if IsInstallChain(texts, vs) && NoProfiles(texts) {
      forall k | 0 < k < |vs|
        ensures Compare(vs[k - 1], vs[k]) <= 0
      {
        StepBetweenTexts(texts[k - 1], texts[k]);
        CompareIsTotal(vs[k - 1], vs[k], vs[k]);
      }
      VersionsClimb(vs, i, j);
    }
  }

  // ----- when matching is transitive -----

  /**
   The middle label carries a build profile, one neighbour spells its very version without one (by
   build metadata), and the other neighbour is another version.
   */
  ghost predicate Splits(v: Option<Version>, p: string, w: Option<Version>, q: string, u: Option<Version>, r: string) {
    && w.Some? && q != ""
    && ((p == "" && v == w && u != w) || (r == "" && u == w && v != w))
  }

  /** What Consistent leaves of two labels: equal texts have equal versions. */
  ghost predicate SameRead(a: Label, b: Label) {
    (a.text == b.text ==> a.version == b.version && a.base == b.base) && (a.base == b.base ==> a.baseVersion == b.baseVersion)
  }

  lemma LabelsMatchMeans(a: Label, p: string, b: Label, q: string)
    requires Consistent(a, p) && Consistent(b, q) && SameRead(a, b)
    requires b.text == "" ==> b.version.None?
    ensures b.version.Some? ==>
      (LabelsMatch(a, b) <==> a.version.Some? && (a.version == b.version || a.baseVersion == b.baseVersion))
    ensures b.version.None? ==> (LabelsMatch(a, b) <==> b.text != "" && a.base == b.base)
  {
    CompareParsedIsAntisymmetric(a.version, b.version);
    CompareParsedIsAntisymmetric(a.baseVersion, b.baseVersion);
  }

  /** Matching between parseable texts: the same version, or the same release once a build profile is dropped. */
  lemma MatchMeans(a: string, b: string)
    ensures Parse(b).Some? ==>
      (VersionsMatch(a, b) <==>
        Parse(a).Some? && (Parse(a) == Parse(b) || Parse(StripProfile(a)) == Parse(StripProfile(b))))
    ensures Parse(b).None? ==> (VersionsMatch(a, b) <==> b != "" && StripProfile(a) == StripProfile(b))
  {
    ReadIsConsistent(a);
    ReadIsConsistent(b);
    EmptyDoesNotParse();
    LabelsMatchMeans(Read(a), ProfileOf(a), Read(b), ProfileOf(b));
  }

  lemma LabelsChain(a: Label, p: string, b: Label, q: string, c: Label, r: string)
    requires Consistent(a, p) && Consistent(b, q) && Consistent(c, r)
    requires SameRead(a, b) && SameRead(b, c) && SameRead(a, c)
    requires (b.text == "" ==> b.version.None?) && (c.text == "" ==> c.version.None?)
    requires LabelsMatch(a, b) && LabelsMatch(b, c)
    ensures LabelsMatch(a, c) <==> !Splits(a.version, p, b.version, q, c.version, r)
  {
    LabelsMatchMeans(a, p, b, q);
    LabelsMatchMeans(b, q, c, r);
    LabelsMatchMeans(a, p, c, r);
  }

  /** For any three texts: two matches chain if and only if the middle label does not split them. */
  lemma MatchChains(a: string, b: string, c: string)
    ensures VersionsMatch(a, b) && VersionsMatch(b, c) ==>
      (VersionsMatch(a, c) <==> !Splits(Parse(a), ProfileOf(a), Parse(b), ProfileOf(b), Parse(c), ProfileOf(c)))
  {
    ReadIsConsistent(a);
    ReadIsConsistent(b);
    ReadIsConsistent(c);
    EmptyDoesNotParse();
    if VersionsMatch(a, b) && VersionsMatch(b, c) {
      LabelsChain(Read(a), ProfileOf(a), Read(b), ProfileOf(b), Read(c), ProfileOf(c));
    }
  }

  /** Matching is symmetric, and holds of a text and itself unless it is empty. */
  lemma MatchIsSymmetric(a: string, b: string)
    ensures VersionsMatch(a, b) == VersionsMatch(b, a)
    ensures VersionsMatch(a, a) <==> a != ""
  {
    ReadIsConsistent(a);
    ReadIsConsistent(b);
    EmptyDoesNotParse();
    LabelsSwap(Read(a), Read(b));
  }

  lemma ReadOf(text: string, d: Dotted)
    requires Trimmed(text) && MadeOf(text, d)
    ensures Parse(text) == ParseDotted(d) && |d.rest| <= |text|
    ensures StripProfile(text) == CutSuffix(text, text, Some(d))
  {
    TrimmedIsStripped(text);
    ReadDottedOf(text, d);
  }

  lemma SuffixesOfExample()
    ensures ReadSuffix("") == Some("") && ReadSuffix("-dev") == Some("dev") && ReadSuffix("-dev+x") == Some("dev")
    ensures Text.Split("dev", '.') == ["dev"]
  {
    ProfileSuffix("-dev");
    assert "-dev"[1..] == "dev";
    var s := "-dev+x";
    assert s[4] == '+' && '+' !in s[..4];
    assert Text.Find(s, '+') == 4;
    assert s[1..4] == "dev" && s[5..] == "x";
  }

  lemma ExampleVersions(d: Dotted)
    requires d.major == "1" && d.minor == "2" && d.patch == "3"
    requires d.rest == "" || d.rest == "-dev" || d.rest == "-dev+x"
    ensures ParseDotted(d) == Some(Version(1, 2, 3, if d.rest == "" then [] else ["dev"]))
  {
    assert ReadSuffix(d.rest) == Some(if d.rest == "" then "" else "dev") && Text.Split("dev", '.') == ["dev"] by {
      SuffixesOfExample();
    }
    assert Text.Value("1") == 1 && Text.Value("2") == 2 && Text.Value("3") == 3 by {
      assert Text.Value("1"[..0]) == 0 && Text.Value("2"[..0]) == 0 && Text.Value("3"[..0]) == 0;
    }
  }

  lemma ExampleText(d: Dotted) returns (text: string)
    requires d.major == "1" && d.minor == "2" && d.patch == "3"
    requires d.rest == "" || d.rest == "-dev" || d.rest == "-dev+x"
    ensures text == "1.2.3" + d.rest && Trimmed(text) && MadeOf(text, d)
  {
    text := "1.2.3" + d.rest;
    assert Assembled(d) == text;
  }

  lemma ExampleUnprofiled(d: Dotted) returns (text: string)
    requires d.major == "1" && d.minor == "2" && d.patch == "3" && (d.rest == "" || d.rest == "-dev+x")
    ensures text == "1.2.3" + d.rest
    ensures var v := Some(Version(1, 2, 3, if d.rest == "" then [] else ["dev"])); Read(text) == Label(text, v, text, v)
  {
    text := ExampleText(d);
    ReadOf(text, d);
    ExampleVersions(d);
  }

  lemma ExampleProfiled(d: Dotted) returns (text: string, base: string)
    requires d.major == "1" && d.minor == "2" && d.patch == "3" && d.rest == "-dev"
    ensures base == "1.2.3" && text == base + d.rest
    ensures Read(base) == Label(base, Some(Version(1, 2, 3, [])), base, Some(Version(1, 2, 3, [])))
    ensures Read(text) == Label(text, Some(Version(1, 2, 3, ["dev"])), base, Some(Version(1, 2, 3, [])))
  {
    base := ExampleUnprofiled(d.(rest := ""));
    text := ExampleText(d);
    ReadOf(text, d);
    ExampleVersions(d);
    assert text[..|text| - 4] == base;
  }

  lemma MatchByLabels(a: string, b: string, la: Label, lb: Label)
    requires Read(a) == la && Read(b) == lb
    ensures VersionsMatch(a, b) == LabelsMatch(la, lb)
  {
  }

  lemma ExampleMatches(a: Label, b: Label, c: Label)
    requires var release, dev := Some(Version(1, 2, 3, [])), Some(Version(1, 2, 3, ["dev"]));
      && a == Label(a.text, dev, a.text, dev) && c == Label(c.text, release, c.text, release)
      && b == Label(b.text, dev, c.text, release)
    requires a.text != "" && b.text != "" && c.text != "" && a.text != c.text
    ensures LabelsMatch(a, b) && LabelsMatch(b, c) && !LabelsMatch(a, c)
  {
    CompareParsedIsAntisymmetric(a.version, b.version);
    CompareParsedIsAntisymmetric(b.baseVersion, c.version);
    CompareParsedIsAntisymmetric(a.version, c.version);
  }

  /** "1.2.3-dev+x" matches "1.2.3-dev", which matches "1.2.3", but the ends do not match. */
  lemma MatchIsNotTransitive() returns (a: string, b: string, c: string)
    ensures c == "1.2.3" && b == c + "-dev" && a == c + "-dev+x"
    ensures VersionsMatch(a, b) && VersionsMatch(b, c) && !VersionsMatch(a, c)
  {
    a := ExampleUnprofiled(Dotted("1", "2", "3", "-dev+x"));
    b, c := ExampleProfiled(Dotted("1", "2", "3", "-dev"));
    var release, dev := Some(Version(1, 2, 3, [])), Some(Version(1, 2, 3, ["dev"]));
    var la, lb, lc := Label(a, dev, a, dev), Label(b, dev, c, release), Label(c, release, c, release);
    ExampleMatches(la, lb, lc);
    MatchByLabels(a, b, la, lb);
    MatchByLabels(b, c, lb, lc);
    MatchByLabels(a, c, la, lc);
  }
}
