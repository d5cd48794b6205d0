/** The first entry of a CPIO newc archive, read through a file cursor. */
module Cpio {
  import opened Prelude

  const HEADER_LEN := 110
  const NEWC: seq<Byte> := [0x30, 0x37, 0x30, 0x37, 0x30, 0x31]
  const NEWC_CRC: seq<Byte> := [0x30, 0x37, 0x30, 0x37, 0x30, 0x32]

  // ----- hexadecimal numerals, as Python's int(bytes, 16) reads them -----

  predicate IsBlank(b: Byte) {
    0x09 <= b <= 0x0D || b == 0x20
  }

  predicate IsHex(b: Byte) {
    0x30 <= b <= 0x39 || 0x41 <= b <= 0x46 || 0x61 <= b <= 0x66
  }

  function HexValue(b: Byte): int
    requires IsHex(b)
  {
    if b <= 0x39 then b - 0x30 else if b <= 0x46 then b - 0x37 else b - 0x57
  }

  function DropBlanks(s: seq<Byte>): seq<Byte> {
    if |s| > 0 && IsBlank(s[0]) then DropBlanks(s[1..]) else s
  }

  function DropTrailingBlanks(s: seq<Byte>): seq<Byte> {
    if |s| > 0 && IsBlank(s[|s| - 1]) then DropTrailingBlanks(s[..|s| - 1]) else s
  }

  /** Hex digits, single underscores between them; the value read so far is `acc`. */
  function Digits(s: seq<Byte>, acc: int): Option<int> {
    if |s| == 0 || !IsHex(s[0]) then None
    else
      var v := acc * 16 + HexValue(s[0]);
      if |s| == 1 then Some(v)
      else if s[1] == 0x5F then Digits(s[2..], v)
      else Digits(s[1..], v)
  }

  /** An optional 0x prefix, which one underscore may follow. */
  function Unprefixed(s: seq<Byte>): seq<Byte> {
    if |s| >= 2 && s[0] == 0x30 && (s[1] == 0x78 || s[1] == 0x58)
    then if |s| >= 3 && s[2] == 0x5F then s[3..] else s[2..]
    else s
  }

  function ParseHex(s: seq<Byte>): Option<int> {
    var t := DropTrailingBlanks(DropBlanks(s));
    if |t| > 0 && t[0] == 0x2D then
      var d := Digits(Unprefixed(t[1..]), 0);
      if d.Some? then Some(-d.value) else None
    else if |t| > 0 && t[0] == 0x2B then Digits(Unprefixed(t[1..]), 0)
    else Digits(Unprefixed(t), 0)
  }

  // ----- reading -----

  /** What a read of `n` bytes at `pos` returns; a negative `n` reads everything. */
  function ReadAt(file: seq<Byte>, pos: nat, n: int): (r: seq<Byte>)
    requires pos <= |file|
    ensures |r| <= |file| - pos && r == file[pos..pos + |r|]
  {
    file[pos..if n < 0 then |file| else Min(pos + n, |file|)]
  }

  function RStripNul(s: seq<Byte>): (r: seq<Byte>)
    ensures r <= s
  {
    if |s| > 0 && s[|s| - 1] == 0 then RStripNul(s[..|s| - 1]) else s
  }

  function Pad(nameSize: int): (p: int)
    ensures 0 <= p < 4 && (HEADER_LEN + nameSize + p) % 4 == 0
  {
    (4 - (HEADER_LEN + nameSize) % 4) % 4
  }

  datatype Entry = Entry(name: seq<Byte>, data: seq<Byte>)

  /** What follows the header, given the two sizes it announces. */
  function ReadBody(body: seq<Byte>, nameSize: int, fileSize: int): Option<Entry> {
    var name := ReadAt(body, 0, nameSize);
    var pad := ReadAt(body, |name|, Pad(nameSize));
    var data := ReadAt(body, |name| + |pad|, fileSize);
    if |data| != fileSize then None else Some(Entry(RStripNul(name), data))
  }

  function FirstEntry(file: seq<Byte>): Option<Entry> {
    if |file| < HEADER_LEN || (file[..6] != NEWC && file[..6] != NEWC_CRC) then None
    else
      var fileSize, nameSize := ParseHex(file[54..62]), ParseHex(file[94..102]);
      if fileSize.None? || nameSize.None? then None
      else ReadBody(file[HEADER_LEN..], nameSize.value, fileSize.value)
  }

  class ByteFile {
    const bytes: seq<Byte>
    var pos: nat

    ghost predicate Valid()
      reads this
    {
      pos <= |bytes|
    }

    constructor (bytes: seq<Byte>)
      ensures Valid() && this.bytes == bytes && pos == 0
    {
      this.bytes, pos := bytes, 0;
    }

    method Read(n: int) returns (r: seq<Byte>)
      requires Valid()
      modifies this
      ensures Valid() && r == ReadAt(bytes, old(pos), n) && pos == old(pos) + |r|
    {
      r := ReadAt(bytes, pos, n);
      pos := pos + |r|;
    }
  }

  method ReadFirstCpioEntry(f: ByteFile) returns (entry: Option<Entry>)
    requires f.Valid() && f.pos == 0
    modifies f
    ensures entry == FirstEntry(f.bytes)
  {
    var magic := f.Read(6);
    if magic != NEWC && magic != NEWC_CRC { return None; }
    var header := f.Read(HEADER_LEN - 6);
    if |header| != HEADER_LEN - 6 { return None; }
    assert header == f.bytes[6..HEADER_LEN] && magic == f.bytes[..6];
    SliceOfSlice(f.bytes, 6, HEADER_LEN, 48, 56);
    SliceOfSlice(f.bytes, 6, HEADER_LEN, 88, 96);
    var fileSize := ParseHex(header[48..56]);
    if fileSize.None? { return None; }
    var nameSize := ParseHex(header[88..96]);
    if nameSize.None? { return None; }
    entry := ReadNameAndData(f, nameSize.value, fileSize.value);
  }

  lemma SliceOfSlice(s: seq<Byte>, a: nat, b: nat, i: nat, j: nat)
    requires i <= j <= b - a && b <= |s|
    ensures s[a..b][i..j] == s[a + i..a + j]
  {
    assert forall k :: 0 <= k < j - i ==> s[a..b][i..j][k] == s[a..b][i + k] == s[a + i..a + j][k];
  }

  lemma ReadShift(file: seq<Byte>, base: nat, pos: nat, n: int)
    requires base + pos <= |file|
    ensures ReadAt(file, base + pos, n) == ReadAt(file[base..], pos, n)
  {
  }

  /** The part of the reader behind the header. */
  method ReadNameAndData(f: ByteFile, nameSize: int, fileSize: int) returns (entry: Option<Entry>)
    requires f.Valid() && f.pos == HEADER_LEN
    modifies f
    ensures entry == ReadBody(f.bytes[HEADER_LEN..], nameSize, fileSize)
  {
    ghost var body := f.bytes[HEADER_LEN..];
    ReadShift(f.bytes, HEADER_LEN, 0, nameSize);
    var name := f.Read(nameSize);
    ReadShift(f.bytes, HEADER_LEN, |name|, Pad(nameSize));
    var pad := f.Read(Pad(nameSize));
    ReadShift(f.bytes, HEADER_LEN, |name| + |pad|, fileSize);
    var data := f.Read(fileSize);
    if |data| != fileSize { return None; }
    return Some(Entry(RStripNul(name), data));
  }

  // ----- writing -----

  function HexDigit(d: int): Byte
    requires 0 <= d < 16
  {
    if d < 10 then 0x30 + d else 0x57 + d
  }

  /** `n` in `width` lower-case hex digits. */
  function HexField(n: nat, width: nat): (s: seq<Byte>)
    ensures |s| == width && forall i :: 0 <= i < width ==> IsHex(s[i])
  {
    if width == 0 then [] else HexField(n / 16, width - 1) + [HexDigit(n % 16)]
  }

  function Zeros(n: nat): seq<Byte> {
    seq(n, _ => 0)
  }

  /** The header fields the reader does not look at. */
  datatype Other = Other(magic: seq<Byte>, front: seq<Byte>, middle: seq<Byte>, check: seq<Byte>) {
    predicate Valid() {
      (magic == NEWC || magic == NEWC_CRC) && |front| == 48 && |middle| == 32 && |check| == 8
    }
  }

  function Header(o: Other, nameSize: nat, fileSize: nat): seq<Byte> {
    o.magic + o.front + HexField(fileSize, 8) + o.middle + HexField(nameSize, 8) + o.check
  }

  function Body(name: seq<Byte>, data: seq<Byte>): seq<Byte> {
    name + [0] + Zeros(Pad(|name| + 1)) + data
  }

  /** An entry up to the end of its data. */
  function Encode(o: Other, name: seq<Byte>, data: seq<Byte>): seq<Byte> {
    Header(o, |name| + 1, |data|) + Body(name, data)
  }

  // ----- proofs -----

  function Pow16(w: nat): nat {
    if w == 0 then 1 else 16 * Pow16(w - 1)
  }

  lemma {:induction false} DigitsAppend(s: seq<Byte>, d: Byte, acc: int)
    requires |s| > 0 && IsHex(d) && forall i :: 0 <= i < |s| ==> IsHex(s[i])
    ensures Digits(s, acc).Some? && Digits(s + [d], acc) == Some(Digits(s, acc).value * 16 + HexValue(d))
  {
    if |s| == 1 {
      assert (s + [d])[1..] == [d];
    } else {
      assert (s + [d])[1..] == s[1..] + [d];
      DigitsAppend(s[1..], d, acc * 16 + HexValue(s[0]));
    }
  }

  lemma {:induction false} FieldValue(n: nat, width: nat)
    requires 0 < width && n < Pow16(width)
    ensures Digits(HexField(n, width), 0) == Some(n)
  {
    if width == 1 {
      assert Pow16(0) == 1;
      assert HexField(n, 1) == [HexDigit(n)];
    } else {
      FieldValue(n / 16, width - 1);
      DigitsAppend(HexField(n / 16, width - 1), HexDigit(n % 16), 0);
    }
  }

  /** Parsing undoes printing. */
  lemma HexRoundTrip(n: nat)
    requires n < 0x1_0000_0000
    ensures ParseHex(HexField(n, 8)) == Some(n)
  {
    assert Pow16(8) == 0x1_0000_0000 by {
      assert Pow16(4) == 0x1_0000;
    }
    FieldValue(n, 8);
    var s := HexField(n, 8);
    assert IsHex(s[0]) && IsHex(s[1]) && IsHex(s[7]);
  }

  function UpperDigit(b: Byte): Byte {
    if 0x61 <= b <= 0x66 then b - 0x20 else b
  }

  function UpperDigits(s: seq<Byte>): (r: seq<Byte>)
    ensures |r| == |s| && forall i :: 0 <= i < |s| ==> r[i] == UpperDigit(s[i])
  {
    seq(|s|, i requires 0 <= i < |s| => UpperDigit(s[i]))
  }

  lemma {:induction false} UpperDigitsAgree(s: seq<Byte>, acc: int)
    requires forall i :: 0 <= i < |s| ==> IsHex(s[i])
    ensures Digits(UpperDigits(s), acc) == Digits(s, acc)
  {
    if |s| > 1 {
      assert UpperDigits(s)[1..] == UpperDigits(s[1..]);
      UpperDigitsAgree(s[1..], acc * 16 + HexValue(s[0]));
    }
  }

  /** Upper-case digits are read alike, and a minus sign negates. */
  lemma OtherNumerals(n: int)
    requires 0 <= n < 0x1_0000_0000
    ensures ParseHex(UpperDigits(HexField(n, 8))) == Some(n)
    ensures ParseHex([0x2D] + HexField(n, 8)) == Some(-n)
  {
    assert Pow16(8) == 0x1_0000_0000 by {
      assert Pow16(4) == 0x1_0000;
    }
    FieldValue(n, 8);
    var s := HexField(n, 8);
    UpperDigitsAgree(s, 0);
    PlainNumeral(UpperDigits(s));
    MinusNumeral(s);
  }

  /** A field of hex digits has neither blanks, sign nor prefix to it. */
  lemma PlainNumeral(s: seq<Byte>)
    requires |s| == 8 && IsHex(s[0]) && IsHex(s[1]) && IsHex(s[7])
    ensures ParseHex(s) == Digits(s, 0)
  {
  }

  lemma MinusNumeral(s: seq<Byte>)
    requires |s| == 8 && IsHex(s[0]) && IsHex(s[1]) && IsHex(s[7]) && Digits(s, 0).Some?
    ensures ParseHex([0x2D] + s) == Some(-Digits(s, 0).value)
  {
    var m := [0x2D] + s;
    assert m[8] == s[7] && m[1..] == s;
  }

  lemma HeaderFields(o: Other, nameSize: nat, fileSize: nat)
    requires o.Valid()
    ensures var h := Header(o, nameSize, fileSize);
      && |h| == HEADER_LEN && h[..6] == o.magic
      && h[54..62] == HexField(fileSize, 8) && h[94..102] == HexField(nameSize, 8)
  {
  }

  /** The reader on any bytes that begin with a written header. */
  lemma ReadsOwnHeader(o: Other, nameSize: nat, fileSize: nat, body: seq<Byte>)
    requires o.Valid() && nameSize < 0x1_0000_0000 && fileSize < 0x1_0000_0000
    ensures FirstEntry(Header(o, nameSize, fileSize) + body) == ReadBody(body, nameSize, fileSize)
  {
    var h := Header(o, nameSize, fileSize);
    var file := h + body;
    HeaderFields(o, nameSize, fileSize);
    HexRoundTrip(nameSize);
    HexRoundTrip(fileSize);
    assert file[..6] == h[..6] && file[54..62] == h[54..62] && file[94..102] == h[94..102];
    assert file[HEADER_LEN..] == body;
  }

  lemma RStripTerminated(name: seq<Byte>)
    requires |name| > 0 ==> name[|name| - 1] != 0
    ensures RStripNul(name + [0]) == name
  {
    var t := name + [0];
    assert t[|t| - 1] == 0 && t[..|t| - 1] == name;
    assert RStripNul(t) == RStripNul(name);
  }

  lemma ReadsOwnBody(name: seq<Byte>, data: seq<Byte>, rest: seq<Byte>)
    requires |name| > 0 ==> name[|name| - 1] != 0
    ensures ReadBody(Body(name, data) + rest, |name| + 1, |data|) == Some(Entry(name, data))
  {
    var n := |name| + 1;
    var body := Body(name, data) + rest;
    assert ReadAt(body, 0, n) == name + [0];
    assert |ReadAt(body, n, Pad(n))| == Pad(n);
    assert ReadAt(body, n + Pad(n), |data|) == data;
    RStripTerminated(name);
  }

  /** Reading what was written, whatever follows, gives back the name and the data. */
  lemma CpioRoundTrip(o: Other, name: seq<Byte>, data: seq<Byte>, rest: seq<Byte>)
    requires o.Valid() && (|name| > 0 ==> name[|name| - 1] != 0)
    requires |name| + 1 < 0x1_0000_0000 && |data| < 0x1_0000_0000
    ensures FirstEntry(Encode(o, name, data) + rest) == Some(Entry(name, data))
  {
    var n := |name| + 1;
    var body := Body(name, data) + rest;
    assert Encode(o, name, data) + rest == Header(o, n, |data|) + body;
    ReadsOwnHeader(o, n, |data|, body);
    ReadsOwnBody(name, data, rest);
  }

  /**
   Exactly which strict prefixes of an entry are rejected: all of them when there is data, else
   those that cut into the header. The others are read as an entry with a shortened name.
   */
  lemma PrefixesRejected(o: Other, name: seq<Byte>, data: seq<Byte>, p: nat)
    requires o.Valid() && |name| + 1 < 0x1_0000_0000 && |data| < 0x1_0000_0000
    requires p < |Encode(o, name, data)|
    ensures FirstEntry(Encode(o, name, data)[..p]).None? <==> p < HEADER_LEN || |data| > 0
  {
    var n := |name| + 1;
    HeaderFields(o, n, |data|);
    if p >= HEADER_LEN {
      var body := Body(name, data)[..p - HEADER_LEN];
      assert Encode(o, name, data)[..p] == Header(o, n, |data|) + body;
      ReadsOwnHeader(o, n, |data|, body);
    }
  }

  /** How the parts of an entry lie in what follows the header. */
  ghost predicate CutFrom(body: seq<Byte>, e: Entry, nameEnd: nat, start: nat) {
    && nameEnd <= start && start - nameEnd < 4 && start + |e.data| <= |body|
    && e.data == body[start..start + |e.data|]
    && |e.name| <= nameEnd && e.name == body[..|e.name|] && (forall i :: |e.name| <= i < nameEnd ==> body[i] == 0)
    && (e.data != [] ==> (HEADER_LEN + start) % 4 == 0)
  }

  lemma {:induction false} RStripTakesNuls(s: seq<Byte>)
    ensures forall i :: |RStripNul(s)| <= i < |s| ==> s[i] == 0
  {
    if |s| > 0 && s[|s| - 1] == 0 {
      RStripTakesNuls(s[..|s| - 1]);
    }
  }

  lemma BodyIsCut(body: seq<Byte>, nameSize: int, fileSize: int) returns (nameEnd: nat, start: nat)
    requires ReadBody(body, nameSize, fileSize).Some?
    ensures CutFrom(body, ReadBody(body, nameSize, fileSize).value, nameEnd, start)
    ensures |ReadBody(body, nameSize, fileSize).value.data| == fileSize
  {
    var name := ReadAt(body, 0, nameSize);
    var pad := ReadAt(body, |name|, Pad(nameSize));
    nameEnd, start := |name|, |name| + |pad|;
    assert name == body[..nameEnd];
    RStripTakesNuls(name);
    if fileSize > 0 {
      assert |name| == nameSize && |pad| == Pad(nameSize);
    }
  }

  /**
   Whatever file is given, an entry is only ever read from a newc archive, and is cut out of it: the
   name without its trailing NULs right behind the header, the data on a 4-byte boundary behind it.
   */
  lemma EntryIsCut(file: seq<Byte>) returns (nameEnd: nat, start: nat)
    requires FirstEntry(file).Some?
    ensures |file| >= 110 && file[..5] == [0x30, 0x37, 0x30, 0x37, 0x30] && (file[5] == 0x31 || file[5] == 0x32)
    ensures CutFrom(file[110..], FirstEntry(file).value, nameEnd, start)
  {
    assert file[..5] == file[..6][..5] && file[5] == file[..6][5];
    nameEnd, start := BodyIsCut(file[HEADER_LEN..], ParseHex(file[94..102]).value, ParseHex(file[54..62]).value);
  }
}
