/** The string operations the source relies on: strip, lower, split and decimal numerals. */
module Text {
  import opened Prelude

  /** The characters Python's `str.strip` removes. */
  predicate IsSpace(c: char) {
    var n := c as int;
    || 0x09 <= n <= 0x0D || 0x1C <= n <= 0x20 || n == 0x85 || n == 0xA0 || n == 0x1680
    || 0x2000 <= n <= 0x200A || n == 0x2028 || n == 0x2029 || n == 0x202F || n == 0x205F || n == 0x3000
  }

  /** The first index from `i` on whose character is not in `p`, or `|s|`. */
  function SkipRight(s: string, p: char -> bool, i: nat): (j: nat)
    requires i <= |s|
    ensures i <= j <= |s| && (j < |s| ==> !p(s[j]))
    ensures forall k :: i <= k < j ==> p(s[k])
    decreases |s| - i
  {
    if i < |s| && p(s[i]) then SkipRight(s, p, i + 1) else i
  }

  /** The last index down from `j`, but not below `i`, whose preceding character is not in `p`. */
  function SkipLeft(s: string, p: char -> bool, i: nat, j: nat): (k: nat)
    requires i <= j <= |s|
    ensures i <= k <= j && (i < k ==> !p(s[k - 1]))
    ensures forall l :: k <= l < j ==> p(s[l])
    decreases j
  {
    if i < j && p(s[j - 1]) then SkipLeft(s, p, i, j - 1) else j
  }

  function StripOf(s: string, p: char -> bool): (r: string)
    ensures |r| > 0 ==> !p(r[0]) && !p(r[|r| - 1])
    ensures |r| <= |s|
  {
    var i := SkipRight(s, p, 0);
    s[i..SkipLeft(s, p, i, |s|)]
  }

  function Strip(s: string): (r: string)
    ensures |r| > 0 ==> !IsSpace(r[0]) && !IsSpace(r[|r| - 1])
    ensures |r| <= |s|
  {
    StripOf(s, IsSpace)
  }

  /** Stripping finds the core: what is left once characters in `p` are taken off both ends. */
  lemma StripIs(before: string, core: string, after: string, p: char -> bool)
    requires (forall i :: 0 <= i < |before| ==> p(before[i])) && (forall i :: 0 <= i < |after| ==> p(after[i]))
    requires |core| > 0 ==> !p(core[0]) && !p(core[|core| - 1])
    ensures StripOf(before + core + after, p) == core
  {
    var s := before + core + after;
    assert forall k :: 0 <= k < |before| ==> s[k] == before[k];
    assert forall k :: |before| + |core| <= k < |s| ==> s[k] == after[k - |before| - |core|];
    var i := SkipRight(s, p, 0);
    if |core| > 0 {
      assert s[|before|] == core[0] && s[|before| + |core| - 1] == core[|core| - 1];
      assert i == |before|;
      assert SkipLeft(s, p, i, |s|) == |before| + |core|;
    } else {
      assert forall k :: 0 <= k < |s| ==> p(s[k]);
      assert i == |s|;
    }
  }

  lemma StripParts(s: string, p: char -> bool) returns (before: string, after: string)
    ensures s == before + StripOf(s, p) + after
    ensures (forall i :: 0 <= i < |before| ==> p(before[i])) && (forall i :: 0 <= i < |after| ==> p(after[i]))
  {
    var i := SkipRight(s, p, 0);
    var k := SkipLeft(s, p, i, |s|);
    before, after := s[..i], s[k..];
  }

  lemma Regroup(a: string, b: string, c: string, d: string, e: string)
    ensures a + (b + c + d) + e == (a + b) + c + (d + e)
  {
  }

  /** Blanks around a text make no difference to stripping it. */
  lemma StripIgnoresOuter(before: string, s: string, after: string)
    requires (forall i :: 0 <= i < |before| ==> IsSpace(before[i])) && (forall i :: 0 <= i < |after| ==> IsSpace(after[i]))
    ensures Strip(before + s + after) == Strip(s)
  {
    var x, y := StripParts(s, IsSpace);
    var a, b := before + x, y + after;
    Regroup(before, x, Strip(s), y, after);
    StripIs(a, Strip(s), b, IsSpace);
  }

  /** Text whose first and last characters are not in `p` is untouched. */
  lemma StripKeeps(s: string, p: char -> bool)
    requires |s| > 0 ==> !p(s[0]) && !p(s[|s| - 1])
    ensures StripOf(s, p) == s
  {
  }

  /** Lower case of the ASCII letters. */
  function LowerChar(c: char): char {
    if 'A' <= c <= 'Z' then (c as int + 32) as char else c
  }

  function Lower(s: string): (r: string)
    ensures |r| == |s| && forall i :: 0 <= i < |s| ==> r[i] == LowerChar(s[i])
  {
    seq(|s|, i requires 0 <= i < |s| => LowerChar(s[i]))
  }

  lemma LowerIsSpace(c: char)
    ensures IsSpace(LowerChar(c)) <==> IsSpace(c)
    ensures LowerChar(LowerChar(c)) == LowerChar(c)
  {
  }

  lemma LowerOfParts(a: string, b: string, c: string)
    ensures Lower(a + b + c) == Lower(a) + Lower(b) + Lower(c)
  {
  }

  lemma LowerTwice(s: string)
    ensures Lower(Lower(s)) == Lower(s)
  {
    forall i | 0 <= i < |s|
      ensures Lower(Lower(s))[i] == Lower(s)[i]
    {
      LowerIsSpace(s[i]);
    }
  }

  lemma LowerKeepsBlanks(s: string)
    requires forall i :: 0 <= i < |s| ==> IsSpace(s[i])
    ensures forall i :: 0 <= i < |s| ==> IsSpace(Lower(s)[i])
  {
    forall i | 0 <= i < |s|
      ensures IsSpace(Lower(s)[i])
    {
      LowerIsSpace(s[i]);
    }
  }

  /** Stripping and lowering can be done in either order. */
  lemma LowerCommutes(s: string)
    ensures Strip(Lower(s)) == Lower(Strip(s))
  {
    var core := Strip(s);
    var x, y := StripParts(s, IsSpace);
    LowerOfParts(x, core, y);
    LowerKeepsBlanks(x);
    LowerKeepsBlanks(y);
    if |core| > 0 {
      LowerIsSpace(core[0]);
      LowerIsSpace(core[|core| - 1]);
    }
    StripIs(Lower(x), Lower(core), Lower(y), IsSpace);
  }

  /** Where `c` first occurs in `s`, or `|s|`. */
  function Find(s: string, c: char): (i: nat)
    ensures i <= |s| && c !in s[..i] && (i < |s| ==> s[i] == c)
  {
    if |s| == 0 || s[0] == c then 0
    else
      var i := 1 + Find(s[1..], c);
      assert s[..i] == [s[0]] + s[1..][..i - 1];
      i
  }

  lemma {:induction false} FindIs(s: string, c: char, i: nat)
    requires i < |s| && s[i] == c && forall k :: 0 <= k < i ==> s[k] != c
    ensures Find(s, c) == i
  {
    if i > 0 {
      FindIs(s[1..], c, i - 1);
    }
  }

  /** The pieces of `s` between occurrences of `c`; at least one. */
  function Split(s: string, c: char): (r: seq<string>)
    ensures |r| >= 1 && forall i :: 0 <= i < |r| ==> c !in r[i]
    ensures Join(r, c) == s
    decreases |s|
  {
    var i := Find(s, c);
    if i == |s| then assert s[..i] == s; [s]
    else
      var rest := Split(s[i + 1..], c);
      assert s == s[..i] + [c] + s[i + 1..];
      [s[..i]] + rest
  }

  function Join(parts: seq<string>, c: char): string
    requires |parts| >= 1
  {
    if |parts| == 1 then parts[0] else parts[0] + [c] + Join(parts[1..], c)
  }

  predicate IsDigit(c: char) {
    '0' <= c <= '9'
  }

  function DigitValue(c: char): nat
    requires IsDigit(c)
  {
    c as int - '0' as int
  }

  predicate AllDigits(s: string) {
    forall i :: 0 <= i < |s| ==> IsDigit(s[i])
  }

  /** The value of a decimal numeral; the empty numeral is zero. */
  function Value(s: string): nat
    requires AllDigits(s)
  {
    if |s| == 0 then 0 else Value(s[..|s| - 1]) * 10 + DigitValue(s[|s| - 1])
  }

  // ----- integers, as Python's str(int) prints and int(str) reads them -----

  function PrintNat(n: nat): (s: string)
    ensures |s| > 0 && AllDigits(s)
  {
    if n < 10 then [(n + '0' as int) as char] else PrintNat(n / 10) + [(n % 10 + '0' as int) as char]
  }

  function PrintInt(n: int): string {
    if n < 0 then "-" + PrintNat(-n) else PrintNat(n)
  }

  /** Digits with single underscores between them; the value read so far is `acc`. */
  function ReadDigits(s: string, acc: nat): Option<nat> {
    if |s| == 0 || !IsDigit(s[0]) then None
    else
      var v := acc * 10 + DigitValue(s[0]);
      if |s| == 1 then Some(v)
      else if s[1] == '_' then ReadDigits(s[2..], v)
      else ReadDigits(s[1..], v)
  }

  function ParseUnsigned(t: string): Option<int> {
    if |t| > 0 && t[0] == '-' then
      var d := ReadDigits(t[1..], 0);
      if d.None? then None else var v: int := d.value; Some(-v)
    else if |t| > 0 && t[0] == '+' then ReadDigits(t[1..], 0)
    else ReadDigits(t, 0)
  }

  function ParseInt(s: string): Option<int> {
    ParseUnsigned(Strip(s))
  }

  lemma {:induction false} ReadDigitsAppend(s: string, d: char, acc: nat)
    requires |s| > 0 && AllDigits(s) && IsDigit(d)
    ensures ReadDigits(s, acc).Some?
    ensures ReadDigits(s + [d], acc) == Some(ReadDigits(s, acc).value * 10 + DigitValue(d))
  {
    if |s| == 1 {
      assert (s + [d])[1..] == [d];
    } else {
      assert (s + [d])[1..] == s[1..] + [d];
      ReadDigitsAppend(s[1..], d, acc * 10 + DigitValue(s[0]));
    }
  }

  lemma {:induction false} ReadPrinted(n: nat)
    ensures ReadDigits(PrintNat(n), 0) == Some(n)
  {
    if n >= 10 {
      ReadPrinted(n / 10);
      ReadDigitsAppend(PrintNat(n / 10), (n % 10 + '0' as int) as char, 0);
    }
  }

  /** Reading back a printed integer. */
  lemma IntRoundTrip(n: int)
    ensures ParseInt(PrintInt(n)) == Some(n)
  {
    var s := PrintInt(n);
    var m := if n < 0 then -n else n;
    ReadPrinted(m);
    assert IsDigit(PrintNat(m)[0]) && IsDigit(PrintNat(m)[|PrintNat(m)| - 1]);
    assert s[|s| - 1] == PrintNat(m)[|PrintNat(m)| - 1];
    StripKeeps(s, IsSpace);
    assert n < 0 ==> s[1..] == PrintNat(m);
  }
}
