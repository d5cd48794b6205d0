/** Version precedence: the comparison the source computes, and clause 11 of Semantic Versioning 2.0.0. */
module SemVer {
  import opened Prelude
  import Text

  datatype Version = Version(major: nat, minor: nat, patch: nat, pre: seq<string>)

  // ----- the comparison -----

  function CompareInt(a: int, b: int): int {
    if a < b then -1 else if a > b then 1 else 0
  }

  function CompareChar(a: char, b: char): int {
    if a < b then -1 else if a > b then 1 else 0
  }

  /** First differing position decides; otherwise the shorter sequence comes first. */
  function CompareLex<T>(cmp: (T, T) -> int, a: seq<T>, b: seq<T>): int {
    if |a| == 0 || |b| == 0 then CompareInt(|a|, |b|)
    else if cmp(a[0], b[0]) != 0 then cmp(a[0], b[0])
    else CompareLex(cmp, a[1..], b[1..])
  }

  /** Digits without a leading zero. */
  predicate IsNumeric(s: string) {
    |s| > 0 && Text.AllDigits(s) && (|s| == 1 || s[0] != '0')
  }

  function CompareIdentifier(l: string, r: string): int {
    if l == r then 0
    else if IsNumeric(l) && IsNumeric(r) then CompareInt(Text.Value(l), Text.Value(r))
    else if IsNumeric(l) then -1
    else if IsNumeric(r) then 1
    else CompareLex(CompareChar, l, r)
  }

  function ComparePrerelease(l: seq<string>, r: seq<string>): int {
    if |l| == 0 && |r| == 0 then 0
    else if |l| == 0 then 1
    else if |r| == 0 then -1
    else CompareLex(CompareIdentifier, l, r)
  }

  function Compare(v: Version, w: Version): int {
    if v.major != w.major then CompareInt(v.major, w.major)
    else if v.minor != w.minor then CompareInt(v.minor, w.minor)
    else if v.patch != w.patch then CompareInt(v.patch, w.patch)
    else ComparePrerelease(v.pre, w.pre)
  }

  // ----- clause 11, stated without a comparison function -----

  /** `a` and `b` agree up to some position, where `a` ends or is smaller. */
  ghost predicate LexPrecedes<T>(less: (T, T) -> bool, a: seq<T>, b: seq<T>) {
    exists k :: 0 <= k <= |a| && k <= |b| && a[..k] == b[..k]
      && ((k == |a| && k < |b|) || (k < |a| && k < |b| && less(a[k], b[k])))
  }

  /** 11.4: numeric identifiers by value, others in ASCII order, numeric ones lower. */
  ghost predicate IdentifierPrecedes(a: string, b: string) {
    if IsNumeric(a) && IsNumeric(b) then Text.Value(a) < Text.Value(b)
    else if IsNumeric(a) || IsNumeric(b) then IsNumeric(a)
    else LexPrecedes((x: char, y: char) => x < y, a, b)
  }

  ghost predicate TriplePrecedes(v: Version, w: Version) {
    || v.major < w.major
    || (v.major == w.major && v.minor < w.minor)
    || (v.major == w.major && v.minor == w.minor && v.patch < w.patch)
  }

  predicate SameTriple(v: Version, w: Version) {
    v.major == w.major && v.minor == w.minor && v.patch == w.patch
  }

  /** 11.2 the triple; 11.3 a prerelease before its release; 11.4 prereleases identifier by identifier. */
  ghost predicate Precedes(v: Version, w: Version) {
    || TriplePrecedes(v, w)
    || (SameTriple(v, w) && v.pre != [] && w.pre == [])
    || (SameTriple(v, w) && v.pre != [] && w.pre != []
        && LexPrecedes(IdentifierPrecedes, v.pre, w.pre))
  }

  // ----- total orders -----

  ghost predicate TotalOrder<T(!new)>(cmp: (T, T) -> int) {
    && (forall x, y :: cmp(x, y) == -1 || cmp(x, y) == 0 || cmp(x, y) == 1)
    && (forall x, y :: cmp(x, y) == 0 <==> x == y)
    && (forall x, y :: cmp(x, y) == -cmp(y, x))
    && (forall x, y, z :: cmp(x, y) <= 0 && cmp(y, z) <= 0 ==> cmp(x, z) <= 0)
  }

  lemma {:induction false} LexZero<T(!new)>(cmp: (T, T) -> int, a: seq<T>, b: seq<T>)
    requires TotalOrder(cmp)
    ensures CompareLex(cmp, a, b) == 0 <==> a == b
    ensures -1 <= CompareLex(cmp, a, b) <= 1
    ensures CompareLex(cmp, a, b) == -CompareLex(cmp, b, a)
  {
    if |a| > 0 && |b| > 0 {
      LexZero(cmp, a[1..], b[1..]);
      assert a == [a[0]] + a[1..] && b == [b[0]] + b[1..];
    }
  }

  lemma {:induction false} LexTransitive<T(!new)>(cmp: (T, T) -> int, a: seq<T>, b: seq<T>, c: seq<T>)
    requires TotalOrder(cmp)
    requires CompareLex(cmp, a, b) <= 0 && CompareLex(cmp, b, c) <= 0
    ensures CompareLex(cmp, a, c) <= 0
  {
    if |a| > 0 && |b| > 0 && |c| > 0 {
      if cmp(a[0], b[0]) == 0 && cmp(b[0], c[0]) == 0 {
        LexTransitive(cmp, a[1..], b[1..], c[1..]);
      } else {
        assert cmp(a[0], c[0]) <= 0 && cmp(b[0], a[0]) == -cmp(a[0], b[0]);
      }
    }
  }

  /** The comparison by recursion and the definition by first difference agree. */
  lemma {:induction false} LexMeans<T(!new)>(cmp: (T, T) -> int, less: (T, T) -> bool, a: seq<T>, b: seq<T>)
    requires TotalOrder(cmp) && forall x, y :: less(x, y) <==> cmp(x, y) == -1
    ensures CompareLex(cmp, a, b) == -1 <==> LexPrecedes(less, a, b)
  {
    if |a| == 0 || |b| == 0 {
      if |a| < |b| { assert a[..0] == b[..0]; }
    } else if cmp(a[0], b[0]) != 0 {
      if cmp(a[0], b[0]) == -1 { assert a[..0] == b[..0]; }
    } else {
      LexMeans(cmp, less, a[1..], b[1..]);
      if LexPrecedes(less, a[1..], b[1..]) {
        var k :| 0 <= k <= |a[1..]| && k <= |b[1..]| && a[1..][..k] == b[1..][..k]
          && ((k == |a[1..]| && k < |b[1..]|) || (k < |a[1..]| && k < |b[1..]| && less(a[1..][k], b[1..][k])));
        assert a[..k + 1] == [a[0]] + a[1..][..k] && b[..k + 1] == [b[0]] + b[1..][..k];
      }
      if LexPrecedes(less, a, b) {
        var k :| 0 <= k <= |a| && k <= |b| && a[..k] == b[..k]
          && ((k == |a| && k < |b|) || (k < |a| && k < |b| && less(a[k], b[k])));
        assert k > 0;
        assert a[1..][..k - 1] == a[..k][1..] && b[1..][..k - 1] == b[..k][1..];
      }
    }
  }

  // ----- identifiers -----

  lemma {:induction false} ValueBounds(s: string)
    requires Text.AllDigits(s) && |s| > 0 && s[0] != '0'
    ensures Text.Value(s) >= 1
    ensures |s| > 1 ==> Text.Value(s) >= 10
  {
    if |s| > 1 {
      ValueBounds(s[..|s| - 1]);
    }
  }

  /** Numerals without leading zeros are determined by their value. */
  lemma {:induction false} NumeralIsUnique(a: string, b: string)
    requires IsNumeric(a) && IsNumeric(b) && Text.Value(a) == Text.Value(b)
    ensures a == b
    decreases |a|
  {
    if |a| > 1 { ValueBounds(a); }
    if |b| > 1 { ValueBounds(b); }
    var m, n := |a| - 1, |b| - 1;
    if m > 0 && n > 0 {
      NumeralIsUnique(a[..m], b[..n]);
      assert a == a[..m] + [a[m]] && b == b[..n] + [b[n]];
    } else {
      assert Text.Value(a[..0]) == 0 && Text.Value(b[..0]) == 0;
    }
  }

  lemma IdentifiersAreTotal()
    ensures TotalOrder(CompareIdentifier)
  {
    forall l, r
      ensures CompareIdentifier(l, r) == 0 <==> l == r
      ensures -1 <= CompareIdentifier(l, r) <= 1 && CompareIdentifier(l, r) == -CompareIdentifier(r, l)
    {
      LexZero(CompareChar, l, r);
      if IsNumeric(l) && IsNumeric(r) && Text.Value(l) == Text.Value(r) { NumeralIsUnique(l, r); }
    }
    forall x, y, z | CompareIdentifier(x, y) <= 0 && CompareIdentifier(y, z) <= 0
      ensures CompareIdentifier(x, z) <= 0
    {
      IdentifierTransitive(x, y, z);
    }
  }

  lemma IdentifierTransitive(x: string, y: string, z: string)
    requires CompareIdentifier(x, y) <= 0 && CompareIdentifier(y, z) <= 0
    ensures CompareIdentifier(x, z) <= 0
  {
    if !IsNumeric(x) && !IsNumeric(y) && !IsNumeric(z) && x != y && y != z {
      LexTransitive(CompareChar, x, y, z);
    }
  }

  /** The source's comparison of identifiers is clause 11.4's. */
  lemma IdentifierComparisonIsPrecedence(a: string, b: string)
    ensures CompareIdentifier(a, b) == -1 <==> IdentifierPrecedes(a, b)
  {
    LexMeans(CompareChar, (x: char, y: char) => x < y, a, b);
    LexZero(CompareChar, a, b);
  }

  // ----- versions -----

  lemma ComparePrereleaseIsTotal(a: seq<string>, b: seq<string>, c: seq<string>)
    ensures ComparePrerelease(a, b) == 0 <==> a == b
    ensures -1 <= ComparePrerelease(a, b) <= 1 && ComparePrerelease(a, b) == -ComparePrerelease(b, a)
    ensures ComparePrerelease(a, b) <= 0 && ComparePrerelease(b, c) <= 0 ==> ComparePrerelease(a, c) <= 0
  {
    IdentifiersAreTotal();
    LexZero(CompareIdentifier, a, b);
    if CompareLex(CompareIdentifier, a, b) <= 0 && CompareLex(CompareIdentifier, b, c) <= 0 {
      LexTransitive(CompareIdentifier, a, b, c);
    }
  }

  /** A total preorder whose zero is equality of triple and prerelease identifiers. */
  lemma CompareIsTotal(u: Version, v: Version, w: Version)
    ensures Compare(u, v) == 0 <==> u == v
    ensures -1 <= Compare(u, v) <= 1 && Compare(u, v) == -Compare(v, u)
    ensures Compare(u, v) <= 0 && Compare(v, w) <= 0 ==> Compare(u, w) <= 0
  {
    ComparePrereleaseIsTotal(u.pre, v.pre, w.pre);
  }

  /** The comparison is clause 11's precedence, in both directions. */
  lemma CompareIsPrecedence(v: Version, w: Version)
    ensures Compare(v, w) == -1 <==> Precedes(v, w)
    ensures Compare(v, w) == 1 <==> Precedes(w, v)
    ensures Compare(v, w) == 0 <==> v == w
  {
    IdentifiersAreTotal();
    forall a, b { IdentifierComparisonIsPrecedence(a, b); }
    LexMeans(CompareIdentifier, IdentifierPrecedes, v.pre, w.pre);
    LexMeans(CompareIdentifier, IdentifierPrecedes, w.pre, v.pre);
    CompareIsTotal(v, w, v);
  }
}
