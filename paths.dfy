/** The string and path operations of the .NET library (Windows rules) that the importer and
    exporter apply to names and texture paths: splitting on backslashes, Path.Combine,
    Path.GetFileNameWithoutExtension, int.ToString("D4") and bool.ToString(). */
module Paths {

  predicate IsDirectorySeparator(c: char) { c == '\\' || c == '/' }

  predicate IsDriveLetter(c: char) { 'A' <= c <= 'Z' || 'a' <= c <= 'z' }

  /** The index of the last character satisfying the test, or -1. */
  function LastIndexWhere(s: string, sep: bool): (r: int)
    decreases |s|
    ensures -1 <= r < |s|
    ensures r >= 0 ==> Hit(s[r], sep)
    ensures forall k :: r < k < |s| ==> !Hit(s[k], sep)
  {
    if |s| == 0 then -1
    else if Hit(s[|s| - 1], sep) then |s| - 1
    else LastIndexWhere(s[..|s| - 1], sep)
  }

  /** The test LastIndexWhere uses: a directory separator when `sep`, a backslash otherwise. */
  predicate Hit(c: char, sep: bool) { if sep then IsDirectorySeparator(c) else c == '\\' }

  /** The last element of textureFilepath.Split("\\"): what follows the last backslash. */
  function LastSegment(s: string): string
  {
    s[LastIndexWhere(s, false) + 1..]
  }

  /** The last segment is a suffix with no backslash, preceded by a backslash unless it is the
      whole string. */
  lemma LastSegmentIsLastPart(s: string)
    ensures var r := LastSegment(s);
      && '\\' !in r
      && |r| <= |s| && s[|s| - |r|..] == r
      && (|r| < |s| ==> s[|s| - |r| - 1] == '\\')
  {
  }

  /** Path.IsPathRooted: a leading separator or a drive letter followed by ':'. */
  predicate IsPathRooted(p: string)
  {
    (|p| >= 1 && IsDirectorySeparator(p[0])) || (|p| >= 2 && IsDriveLetter(p[0]) && p[1] == ':')
  }

  /** Path.Combine of two paths. */
  function Combine(first: string, second: string): string
  {
    if |second| == 0 then first
    else if |first| == 0 || IsPathRooted(second) then second
    else if IsDirectorySeparator(first[|first| - 1]) || IsDirectorySeparator(second[0]) then first + second
    else first + "\\" + second
  }

  /** Path.GetFileName: what follows the last separator, or the drive prefix "X:" when there is
      no separator at all. */
  function GetFileName(p: string): string
  {
    var i := LastIndexWhere(p, true);
    var root := if |p| >= 2 && IsDriveLetter(p[0]) && p[1] == ':' then 2 else 0;
    var start := if i + 1 < root then root else i + 1;
    p[start..]
  }

  /** The file name is a suffix of the path with no separator in it. */
  lemma FileNameIsSuffix(p: string)
    ensures var r := GetFileName(p);
      |r| <= |p| && p[|p| - |r|..] == r && forall k :: 0 <= k < |r| ==> !IsDirectorySeparator(r[k])
  {
  }

  /** The index of the last '.', or -1. */
  function LastPeriod(s: string): (r: int)
    decreases |s|
    ensures -1 <= r < |s| && (r >= 0 ==> s[r] == '.')
    ensures forall k :: r < k < |s| ==> s[k] != '.'
  {
    if |s| == 0 then -1 else if s[|s| - 1] == '.' then |s| - 1 else LastPeriod(s[..|s| - 1])
  }

  /** Path.GetFileNameWithoutExtension: the file name up to its last '.'. */
  function GetFileNameWithoutExtension(p: string): (r: string)
  {
    WithoutExtension(GetFileName(p))
  }

  /** A name up to its last '.', or all of it when it has none. */
  function WithoutExtension(name: string): (r: string)
    ensures |r| <= |name| && name[..|r|] == r
    ensures |r| < |name| ==> name[|r|] == '.' && forall k :: |r| < k < |name| ==> name[k] != '.'
    ensures |r| == |name| ==> forall k :: 0 <= k < |name| ==> name[k] != '.'
  {
    var i := LastPeriod(name);
    if i == -1 then name else name[..i]
  }

  /** No directory separator, and no ':' that could make a drive prefix. */
  predicate PlainName(s: string)
  {
    forall k :: 0 <= k < |s| ==> !IsDirectorySeparator(s[k]) && s[k] != ':'
  }

  /** Path.Combine puts a plain name after either nothing or a separator. */
  lemma CombineEndsWithName(directory: string, name: string)
    requires |name| > 0 && PlainName(name)
    ensures var p := Combine(directory, name);
      |p| >= |name| && p[|p| - |name|..] == name &&
      (|p| > |name| ==> IsDirectorySeparator(p[|p| - |name| - 1]))
  {
    var p := Combine(directory, name);
    if |directory| > 0 {
      if IsDirectorySeparator(directory[|directory| - 1]) {
        assert p == directory + name;
      } else {
        assert p == directory + "\\" + name;
      }
    }
  }

  /** The file name of a path that ends in a separator and a plain name, or is the plain name. */
  lemma FileNameAfterSeparator(p: string, tail: string)
    requires PlainName(tail) && |p| >= |tail| && p[|p| - |tail|..] == tail
    requires |p| > |tail| ==> IsDirectorySeparator(p[|p| - |tail| - 1])
    ensures GetFileName(p) == tail
  {
    var i := LastIndexWhere(p, true);
    assert i < |p| - |tail|;
    if |p| > |tail| {
      assert i == |p| - |tail| - 1;
    } else {
      assert p == tail;
      if |p| >= 2 { assert p[1] != ':'; }
    }
  }

  /** Appending ".png" to a plain name keeps it plain. */
  lemma PngKeepsPlain(name: string)
    requires PlainName(name)
    ensures PlainName(name + ".png")
  {
    var t := name + ".png";
    forall k | 0 <= k < |t|
      ensures !IsDirectorySeparator(t[k]) && t[k] != ':'
    {
      if k >= |name| { assert t[k] == ".png"[k - |name|]; } else { assert t[k] == name[k]; }
    }
  }

  lemma StripPng(name: string)
    ensures WithoutExtension(name + ".png") == name
  {
    var tail := name + ".png";
    var r := WithoutExtension(tail);
    assert tail[|name|] == '.' && tail[|name| + 1] == 'p' && tail[|name| + 2] == 'n' && tail[|name| + 3] == 'g';
    assert |r| == |name|;
    assert tail[..|name|] == name;
  }

  /** The texture path the importer stores for a file name taken from a scene, Path.Combine of
      the model's directory and the name, plus ".png", gives back the name to the exporter's
      GetFileNameWithoutExtension, for a non-empty name with no separator or ':' in it. */
  lemma TextureNameRoundTrips(directory: string, name: string)
    requires |name| > 0 && PlainName(name)
    ensures GetFileNameWithoutExtension(Combine(directory, name) + ".png") == name
  {
    var c := Combine(directory, name);
    var p := c + ".png";
    var tail := name + ".png";
    CombineEndsWithName(directory, name);
    assert p[|p| - |tail|..] == tail by {
      assert c[|c| - |name|..] == name;
    }
    if |p| > |tail| {
      assert p[|p| - |tail| - 1] == c[|c| - |name| - 1];
    }
    PngKeepsPlain(name);
    FileNameAfterSeparator(p, tail);
    StripPng(name);
  }

  /** The characters '0' to '9'. */
  function Digit(d: nat): char
    requires d < 10
  {
    ['0', '1', '2', '3', '4', '5', '6', '7', '8', '9'][d]
  }

  predicate IsDigit(c: char) { '0' <= c <= '9' }

  /** n in decimal, without leading zeros. */
  function Decimal(n: nat): (s: string)
    ensures |s| > 0 && forall k :: 0 <= k < |s| ==> IsDigit(s[k])
  {
    if n < 10 then [Digit(n)] else Decimal(n / 10) + [Digit(n % 10)]
  }

  /** n.ToString("D4"): decimal, padded on the left with zeros to at least four digits. */
  function D4(n: nat): (s: string)
    ensures |s| >= 4 && forall k :: 0 <= k < |s| ==> IsDigit(s[k])
    ensures n < 10000 ==> |s| == 4
  {
    assert n < 10000 ==> |Decimal(n)| <= 4 by {
      if n < 10000 { DecimalLength(n, 4); }
    }
    PadZeros(Decimal(n), 4)
  }

  function Pow10(k: nat): nat
  {
    if k == 0 then 1 else 10 * Pow10(k - 1)
  }

  /** A number below 10^k has at most k digits. */
  lemma {:induction false} DecimalLength(n: nat, k: nat)
    requires k >= 1 && n < Pow10(k)
    ensures |Decimal(n)| <= k
  {
    if n >= 10 {
      DecimalLength(n / 10, k - 1);
    }
  }

  function PadZeros(s: string, width: nat): (r: string)
    requires forall k :: 0 <= k < |s| ==> IsDigit(s[k])
    decreases width - |s|
    ensures |r| == if |s| < width then width else |s|
    ensures forall k :: 0 <= k < |r| ==> IsDigit(r[k])
  {
    if |s| >= width then s else PadZeros(['0'] + s, width)
  }

  /** The value a string of digits denotes. */
  function ValueOf(s: string): int
  {
    if |s| == 0 then 0
    else ValueOf(s[..|s| - 1]) * 10 + DigitValueOf(s[|s| - 1])
  }

  function DigitValueOf(c: char): int
  {
    (c as int) - ('0' as int)
  }

  lemma DigitValue(d: nat)
    requires d < 10
    ensures DigitValueOf(Digit(d)) == d
  {
  }

  lemma {:induction false} DecimalValue(n: nat)
    ensures ValueOf(Decimal(n)) == n
  {
    if n < 10 {
      DigitValue(n);
      assert Decimal(n)[..0] == [];
    } else {
      var s := Decimal(n / 10) + [Digit(n % 10)];
      assert s[..|s| - 1] == Decimal(n / 10);
      DecimalValue(n / 10);
      DigitValue(n % 10);
    }
  }

  lemma {:induction false} LeadingZeroValue(s: string)
    decreases |s|
    ensures ValueOf(['0'] + s) == ValueOf(s)
  {
    var t := ['0'] + s;
    if |s| == 0 {
      assert t[..0] == [];
    } else {
      assert t[..|t| - 1] == ['0'] + s[..|s| - 1];
      LeadingZeroValue(s[..|s| - 1]);
    }
  }

  lemma {:induction false} PaddedValue(s: string, width: nat)
    requires forall k :: 0 <= k < |s| ==> IsDigit(s[k])
    decreases width - |s|
    ensures ValueOf(PadZeros(s, width)) == ValueOf(s)
  {
    if |s| < width {
      LeadingZeroValue(s);
      PaddedValue(['0'] + s, width);
    }
  }

  /** D4 can be read back, so different numbers give different strings. */
  lemma D4Value(n: nat)
    ensures ValueOf(D4(n)) == n
  {
    DecimalValue(n);
    PaddedValue(Decimal(n), 4);
  }

  lemma D4Injective(m: nat, n: nat)
    requires m != n
    ensures D4(m) != D4(n)
  {
    D4Value(m);
    D4Value(n);
  }

  /** bool.ToString(). */
  function BoolToString(b: bool): (s: string)
    ensures s == "True" <==> b
  {
    if b then "True" else "False"
  }
}
