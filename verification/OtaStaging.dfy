/** Streaming an uploaded bundle into the spool, with the version gate before it replaces the staged one. */
module OtaStaging {
  import opened Prelude
  import Text
  import Cpio
  import OtaPolicy
  import SemVer
  import VT = VersionText

  // ----- the version a bundle declares -----

  const SW_DESCRIPTION: seq<Byte> :=
    [0x73, 0x77, 0x2D, 0x64, 0x65, 0x73, 0x63, 0x72, 0x69, 0x70, 0x74, 0x69, 0x6F, 0x6E]

  /** After blanks, a quoted text that is not empty. */
  function QuotedFrom(text: string, i: nat): Option<string>
    requires i <= |text|
  {
    var quote := Text.SkipRight(text, Text.IsSpace, i);
    if quote == |text| || text[quote] != '"' then None
    else
      var rest := text[quote + 1..];
      var end := Text.Find(rest, '"');
      if end == 0 || end == |rest| then None else Some(rest[..end])
  }

  /** `version = "..."` at position `i`. */
  function VersionAt(text: string, i: nat): Option<string>
    requires i <= |text|
  {
    if i + 7 > |text| || text[i..i + 7] != "version" then None
    else
      var eq := Text.SkipRight(text, Text.IsSpace, i + 7);
      if eq == |text| || text[eq] != '=' then None
      else QuotedFrom(text, eq + 1)
  }

  /** The leftmost match from position `i` on. */
  function SearchVersion(text: string, i: nat): string
    requires i <= |text|
    decreases |text| - i
  {
    if VersionAt(text, i).Some? then VersionAt(text, i).value
    else if i == |text| then ""
    else SearchVersion(text, i + 1)
  }

  /** `decode` stands for the library's lossy UTF-8 decoding. */
  function ExtractBundleVersion(file: seq<Byte>, decode: seq<Byte> -> string): string {
    match Cpio.FirstEntry(file)
    case None => ""
    case Some(e) => if e.name != SW_DESCRIPTION || e.data == [] then "" else SearchVersion(decode(e.data), 0)
  }

  predicate Says(text: string, i: nat) {
    i + 7 <= |text| && text[i..i + 7] == "version"
  }

  /** `text` says `version = "v"` behind `before`, with any blanks, and says no "version" any earlier. */
  predicate Declares(text: string, before: string, gap: string, gap': string, v: string, after: string) {
    && text == before + "version" + gap + "=" + gap' + "\"" + v + "\"" + after
    && (forall i :: 0 <= i < |gap| ==> Text.IsSpace(gap[i]))
    && (forall i :: 0 <= i < |gap'| ==> Text.IsSpace(gap'[i]))
    && v != "" && '"' !in v
    && (forall i :: 0 <= i < |before| ==> !Says(text, i))
  }

  lemma {:induction false} SkipsBlanks(s: string, i: nat, j: nat)
    requires i <= j < |s| && !Text.IsSpace(s[j]) && forall k :: i <= k < j ==> Text.IsSpace(s[k])
    ensures Text.SkipRight(s, Text.IsSpace, i) == j
  {
    var k := Text.SkipRight(s, Text.IsSpace, i);
  }

  lemma DeclaredParts(text: string, before: string, gap: string, gap': string, v: string, after: string)
    requires Declares(text, before, gap, gap', v, after)
    ensures var eq := |before| + 7 + |gap|; StandAt(text, |before|, eq, eq + 1 + |gap'|, v, after)
  {
    var i := |before|;
    var eq := i + 7 + |gap|;
    var quote := eq + 1 + |gap'|;
    assert forall k :: i + 7 <= k < eq ==> text[k] == gap[k - i - 7];
    assert forall k :: eq + 1 <= k < quote ==> text[k] == gap'[k - eq - 1];
  }

  lemma QuotedFromParts(text: string, i: nat, quote: nat, n: nat)
    requires i <= quote < |text| && text[quote] == '"' && forall k :: i <= k < quote ==> Text.IsSpace(text[k])
    requires 0 < n == Text.Find(text[quote + 1..], '"') < |text[quote + 1..]|
    ensures QuotedFrom(text, i) == Some(text[quote + 1..][..n])
  {
    SkipsBlanks(text, i, quote);
  }

  lemma VersionAtParts(text: string, i: nat, eq: nat)
    requires Says(text, i) && i + 7 <= eq < |text| && text[eq] == '='
    requires forall k :: i + 7 <= k < eq ==> Text.IsSpace(text[k])
    ensures VersionAt(text, i) == QuotedFrom(text, eq + 1)
  {
    SkipsBlanks(text, i + 7, eq);
  }

  /** Where the parts of a declaration stand in the text. */
  predicate StandAt(text: string, i: nat, eq: nat, quote: nat, v: string, after: string) {
    && Says(text, i) && i + 7 <= eq < quote < |text| && text[eq] == '=' && text[quote] == '"'
    && (forall k :: i + 7 <= k < eq ==> Text.IsSpace(text[k]))
    && (forall k :: eq + 1 <= k < quote ==> Text.IsSpace(text[k]))
    && text[quote + 1..] == v + "\"" + after
  }

  lemma VersionStandsAt(text: string, i: nat, eq: nat, quote: nat, v: string, after: string)
    requires StandAt(text, i, eq, quote, v, after) && v != "" && '"' !in v
    ensures VersionAt(text, i) == Some(v)
  {
    QuotedEnds(text[quote + 1..], v, after);
    QuotedFromParts(text, eq + 1, quote, |v|);
    VersionAtParts(text, i, eq);
  }

  lemma VersionIsAt(text: string, before: string, gap: string, gap': string, v: string, after: string)
    requires Declares(text, before, gap, gap', v, after)
    ensures VersionAt(text, |before|) == Some(v)
  {
    DeclaredParts(text, before, gap, gap', v, after);
    var eq := |before| + 7 + |gap|;
    VersionStandsAt(text, |before|, eq, eq + 1 + |gap'|, v, after);
  }

  lemma QuotedEnds(rest: string, v: string, after: string)
    requires rest == v + "\"" + after && '"' !in v
    ensures Text.Find(rest, '"') == |v| < |rest| && rest[..|v|] == v
  {
    assert rest[|v|] == '"' && forall k :: 0 <= k < |v| ==> rest[k] == v[k];
    Text.FindIs(rest, '"', |v|);
  }

  lemma {:induction false} SearchReaches(text: string, i: nat, n: nat)
    requires i <= n <= |text| && VersionAt(text, n).Some? && forall k :: i <= k < n ==> VersionAt(text, k).None?
    ensures SearchVersion(text, i) == VersionAt(text, n).value
    decreases n - i
  {
    if i < n {
      SearchReaches(text, i + 1, n);
    }
  }

  lemma {:induction false} SearchFails(text: string, i: nat)
    requires i <= |text| && forall k :: i <= k <= |text| ==> VersionAt(text, k).None?
    ensures SearchVersion(text, i) == ""
    decreases |text| - i
  {
    if i < |text| {
      SearchFails(text, i + 1);
    }
  }

  lemma DeclaredIsFound(text: string, before: string, gap: string, gap': string, v: string, after: string)
    requires Declares(text, before, gap, gap', v, after)
    ensures SearchVersion(text, 0) == v
  {
    VersionIsAt(text, before, gap, gap', v, after);
    forall k | 0 <= k < |before|
      ensures VersionAt(text, k).None?
    {
      assert !Says(text, k);
    }
    SearchReaches(text, 0, |before|);
  }

  /** A bundle written as a version file declaring `v` has version `v`; one whose file never says "version" has none. */
  lemma WrittenBundleHasItsVersion(o: Cpio.Other, data: seq<Byte>, rest: seq<Byte>, decode: seq<Byte> -> string)
    requires o.Valid() && 0 < |data| < 0x1_0000_0000
    ensures var bundle := Cpio.Encode(o, SW_DESCRIPTION, data) + rest;
      && (forall before, gap, gap', v, after | Declares(decode(data), before, gap, gap', v, after) ::
            ExtractBundleVersion(bundle, decode) == v)
      && ((forall i: nat :: !Says(decode(data), i)) ==> ExtractBundleVersion(bundle, decode) == "")
  {
    Cpio.CpioRoundTrip(o, SW_DESCRIPTION, data, rest);
    var text := decode(data);
    assert ExtractBundleVersion(Cpio.Encode(o, SW_DESCRIPTION, data) + rest, decode) == SearchVersion(text, 0);
    forall before, gap, gap', v, after | Declares(text, before, gap, gap', v, after)
      ensures SearchVersion(text, 0) == v
    {
      DeclaredIsFound(text, before, gap, gap', v, after);
    }
    if forall i: nat :: !Says(text, i) {
      forall k | 0 <= k <= |text|
        ensures VersionAt(text, k).None?
      {
        assert !Says(text, k);
      }
      SearchFails(text, 0);
    }
  }

  /** An archive whose first entry has another name, or no data, declares no version. */
  lemma OtherBundleHasNoVersion(o: Cpio.Other, name: seq<Byte>, data: seq<Byte>, rest: seq<Byte>, decode: seq<Byte> -> string)
    requires o.Valid() && (|name| > 0 ==> name[|name| - 1] != 0)
    requires |name| + 1 < 0x1_0000_0000 && |data| < 0x1_0000_0000
    requires name != SW_DESCRIPTION || data == []
    ensures ExtractBundleVersion(Cpio.Encode(o, name, data) + rest, decode) == ""
  {
    Cpio.CpioRoundTrip(o, name, data, rest);
  }

  /**
   End to end: on a device that runs a spelled version, a bundle written with a description declaring
   another is blocked exactly when it is another image and precedes the one running.
   */
  lemma BundleIsBlockedWhenOlder(o: Cpio.Other, data: seq<Byte>, rest: seq<Byte>, decode: seq<Byte> -> string,
                                 a: VT.Spelling, b: VT.Spelling, before: string, gap: string, gap': string, after: string)
    requires o.Valid() && 0 < |data| < 0x1_0000_0000 && a.Valid() && b.Valid()
    requires Declares(decode(data), before, gap, gap', VT.Spelled(b), after)
    ensures Blocked(Cpio.Encode(o, SW_DESCRIPTION, data) + rest, VT.Spelled(a), decode) <==>
      !VT.SameImage(a, b) && SemVer.Precedes(b.version, a.version)
  {
    var bundle := Cpio.Encode(o, SW_DESCRIPTION, data) + rest;
    var v := VT.Spelled(b);
    assert ExtractBundleVersion(bundle, decode) == v by { WrittenBundleHasItsVersion(o, data, rest, decode); }
    BlockedByVersion(bundle, VT.Spelled(a), decode, v);
    VT.BlockedSpelled(a, b);
  }

  lemma BlockedByVersion(bundle: seq<Byte>, current: string, decode: seq<Byte> -> string, v: string)
    requires ExtractBundleVersion(bundle, decode) == v
    ensures Blocked(bundle, current, decode) == OtaPolicy.IsBlockedDowngrade(current, v)
  {
  }

  // ----- the upload -----

  /** How one read-and-write turn goes: at most `max` bytes arrive, or the operating system refuses. */
  datatype Turn = Give(max: nat) | Refuse

  class Upload {
    const bytes: seq<Byte>
    const turns: nat -> Turn
    var pos: nat
    var turn: nat

    ghost predicate Valid()
      reads this
    {
      pos <= |bytes|
    }

    constructor (bytes: seq<Byte>, turns: nat -> Turn)
      ensures Valid() && this.bytes == bytes && this.turns == turns && pos == 0 && turn == 0
    {
      this.bytes, this.turns, pos, turn := bytes, turns, 0, 0;
    }

    /** None for an error; the empty sequence at the end of the stream. */
    method Read(n: nat) returns (r: Option<seq<Byte>>)
      requires Valid()
      modifies this
      ensures Valid() && turn == old(turn) + 1
      ensures turns(old(turn)).Refuse? ==> r.None? && pos == old(pos)
      ensures turns(old(turn)).Give? ==>
        && pos == old(pos) + Min(Min(n, turns(old(turn)).max), |bytes| - old(pos))
        && r == Some(bytes[old(pos)..pos])
    {
      var t := turns(turn);
      turn := turn + 1;
      if t.Refuse? { return None; }
      var k := Min(Min(n, t.max), |bytes| - pos);
      r := Some(bytes[pos..pos + k]);
      pos := pos + k;
    }
  }

  // ----- the spool -----

  datatype Status = Downloading(progress: int) | Error

  datatype Outcome = Staged | Raised | WriteFailed | Incomplete | BlockedDowngrade | RenameFailed

  /** What else the operating system may refuse: the directory, opening, closing, renaming and removing the partial file. */
  datatype Faults = Faults(makedirs: bool, open: bool, close: bool, rename: bool, unlink: bool)

  /** Download progress never goes back and stays within 0..40. */
  predicate Climbs(s: seq<Status>) {
    && (forall i :: 0 <= i < |s| ==> s[i].Downloading? && 0 <= s[i].progress <= 40)
    && (forall i :: 0 < i < |s| ==> s[i - 1].progress <= s[i].progress)
  }

  predicate Raises(last: Status, next: Status) {
    last.Downloading? && next.Downloading? && last.progress <= next.progress <= 40
  }

  const CHUNK := 65536

  lemma ProgressClimbs(a: int, b: int, total: int)
    requires 0 <= a <= b <= total && total > 0
    ensures 0 <= a * 40 / total <= b * 40 / total <= 40
  {
    QuotientClimbs(0, a * 40, total);
    QuotientClimbs(a * 40, b * 40, total);
    QuotientClimbs(b * 40, total * 40, total);
    assert total * 40 / total == 40 by { QuotientExact(40, total); }
  }

  lemma MulClimbs(d: int, a: int, b: int)
    requires d > 0 && a >= b
    ensures d * a >= d * b
  {
  }

  lemma QuotientExact(k: int, d: int)
    requires d > 0
    ensures d * k / d == k
  {
    var q := d * k / d;
    if q > k { MulClimbs(d, q, k + 1); }
    if q < k { MulClimbs(d, k, q + 1); }
  }

  lemma QuotientClimbs(x: int, y: int, d: int)
    requires x <= y && d > 0
    ensures x / d <= y / d
  {
    if x / d > y / d { MulClimbs(d, x / d, y / d + 1); }
  }

  class Spool {
    var staged: Option<seq<Byte>>
    var partial: Option<seq<Byte>>
    var statuses: seq<Status>

    constructor (staged: Option<seq<Byte>>)
      ensures this.staged == staged && partial == None && statuses == []
    {
      this.staged, partial, statuses := staged, None, [];
    }

    /** The copy loop. `total` may be zero or negative; then nothing is read. `mark` is where this upload's statuses begin. */
    method Receive(src: Upload, total: int, ghost mark: nat) returns (received: nat, failed: bool)
      requires src.Valid() && src.pos == 0 && partial == Some([])
      requires |statuses| == mark + 1 && statuses[mark] == Downloading(0)
      modifies this`partial, this`statuses, src
      ensures src.Valid() && received == src.pos && partial == Some(src.bytes[..received])
      ensures received <= Max(0, total)
      ensures |statuses| > mark && statuses[..mark] == old(statuses)[..mark] && Climbs(statuses[mark..])
      ensures failed ==> Refused(src, old(src.turn))
      ensures Steady(src) ==> !failed && received == Min(Max(0, total), |src.bytes|)
    {
      received, failed := 0, false;
      while received < total
        invariant src.Valid() && received == src.pos && partial == Some(src.bytes[..received])
        invariant received <= Max(0, total) && old(src.turn) <= src.turn
        invariant |statuses| > mark && statuses[..mark] == old(statuses)[..mark] && Climbs(statuses[mark..])
        invariant statuses[|statuses| - 1] == Downloading(if total > 0 then received * 40 / total else 0)
        decreases total - received
      {
        var buf := src.Read(Min(CHUNK, total - received));
        if buf.None? {
          failed := true;
          assert src.turns(src.turn - 1).Refuse?;
          return;
        }
        if buf.value == [] { break; }
        assert src.bytes[..received] + buf.value == src.bytes[..src.pos];
        partial := Some(partial.value + buf.value);
        ProgressClimbs(received, received + |buf.value|, total);
        received := received + |buf.value|;
        Report(Downloading(received * 40 / total), mark);
      }
    }

    method Report(status: Status, ghost mark: nat)
      requires mark < |statuses|
      modifies this`statuses
      ensures statuses == old(statuses) + [status]
      ensures statuses[mark..] == old(statuses)[mark..] + [status] && statuses[..mark] == old(statuses)[..mark]
      ensures Climbs(old(statuses)[mark..]) && Raises(old(statuses[|statuses| - 1]), status) ==> Climbs(statuses[mark..])
    {
      statuses := statuses + [status];
    }

    method Discard(unlinkFails: bool)
      modifies this`partial
      ensures partial == if unlinkFails then old(partial) else None
    {
      if !unlinkFails { partial := None; }
    }

    /**
     Success stages exactly the first `total` bytes, of a version that is no blocked downgrade; any
     failure leaves the bundle staged before untouched. Every status but the last reports climbing
     progress; the last is the error, or full progress.
     */
    method StageBundle(src: Upload, total: int, current: string, decode: seq<Byte> -> string,
                       faults: Faults)
      returns (outcome: Outcome)
      requires src.Valid() && src.pos == 0
      modifies this, src
      ensures outcome == Staged ==>
        0 <= total <= |src.bytes| && staged == Some(src.bytes[..total]) && !Blocked(src.bytes[..total], current, decode)
      ensures outcome != Staged ==> staged == old(staged)
      ensures outcome == Raised <==> faults.makedirs
      ensures if outcome == Raised then statuses == old(statuses) else Reports(old(statuses), statuses, outcome)
      ensures outcome in {WriteFailed, Incomplete, BlockedDowngrade} && !faults.unlink ==> partial.None?
      ensures outcome == WriteFailed ==> faults.open || faults.close || Refused(src, old(src.turn))
      ensures outcome == Incomplete ==> !faults.open && !faults.close && src.pos != total
      ensures outcome == BlockedDowngrade ==> 0 <= total <= |src.bytes| && Blocked(src.bytes[..total], current, decode)
      ensures outcome == RenameFailed ==> faults.rename
      ensures Steady(src) && faults == Faults(false, false, false, false, false) ==>
        outcome == if total < 0 || total > |src.bytes| then Incomplete
                   else if Blocked(src.bytes[..total], current, decode) then BlockedDowngrade else Staged
    {
      if faults.makedirs { return Raised; }
      ghost var mark := |statuses|;
      statuses := statuses + [Downloading(0)];
      assert statuses[mark..] == [Downloading(0)];
      if faults.open {
        Discard(faults.unlink);
        Report(Error, mark);
        return WriteFailed;
      }
      partial := Some([]);
      var received, failed := Receive(src, total, mark);
      failed := failed || faults.close;
      if failed || received != total {
        Discard(faults.unlink);
        Report(Error, mark);
        return if failed then WriteFailed else Incomplete;
      }
      outcome := Install(Blocked(partial.value, current, decode), faults, mark);
    }

    /** A complete upload is dropped when its version is blocked, else renamed over the staged bundle. */
    method Install(blocked: bool, faults: Faults, ghost mark: nat) returns (outcome: Outcome)
      requires mark < |statuses| && Climbs(statuses[mark..]) && partial.Some?
      modifies this
      ensures outcome == if blocked then BlockedDowngrade else if faults.rename then RenameFailed else Staged
      ensures staged == if outcome == Staged then old(partial) else old(staged)
      ensures outcome == BlockedDowngrade && !faults.unlink ==> partial.None?
      ensures Reports(old(statuses)[..mark], statuses, outcome)
    {
      assert statuses[|statuses| - 1] == statuses[mark..][|statuses| - mark - 1];
      if blocked {
        Discard(faults.unlink);
        Report(Error, mark);
        return BlockedDowngrade;
      }
      if faults.rename {
        Report(Error, mark);
        return RenameFailed;
      }
      staged, partial := partial, None;
      Report(Downloading(40), mark);
      return Staged;
    }
  }

  /** The operating system refused one of the turns since turn `from`. */
  ghost predicate Refused(src: Upload, from: nat)
    reads src
  {
    exists i: nat :: from <= i < src.turn && src.turns(i).Refuse?
  }

  /** The reads of this upload always deliver something while there is something, and never fail. */
  ghost predicate Steady(src: Upload) {
    forall i: nat :: src.turns(i).Give? && src.turns(i).max > 0
  }

  predicate Blocked(bundle: seq<Byte>, current: string, decode: seq<Byte> -> string) {
    OtaPolicy.IsBlockedDowngrade(current, ExtractBundleVersion(bundle, decode))
  }

  /** The statuses a call adds: climbing progress, then the error or full progress. */
  ghost predicate Reports(before: seq<Status>, after: seq<Status>, outcome: Outcome) {
    && |before| < |after| && before <= after
    && var added := after[|before|..];
       && (outcome == Staged ==> Climbs(added) && added[|added| - 1] == Downloading(40))
       && (outcome != Staged ==> Climbs(added[..|added| - 1]) && added[|added| - 1] == Error)
  }
}
