/**
 Rendering a version as `major.minor.patch` (Python's `"{}.{}.{}".format`
 of three integers), the release branch and release-candidate tag built from
 it, and `ReadVersion`, the inverse of the rendering.
 */
module Names {
  import opened Wrappers
  import opened Versions
  import opened Text

  const BranchPrefix: string := "release-"
  const CandidateSuffix: string := "-rc.0"

  predicate IsDigit(c: char)
  {
    '0' <= c <= '9'
  }

  predicate AllDigits(s: string)
  {
    forall k :: 0 <= k < |s| ==> IsDigit(s[k])
  }

  /** A canonical decimal numeral: non-empty, digits only, no leading zero. */
  predicate IsNumeral(s: string)
  {
    && |s| >= 1
    && AllDigits(s)
    && (s[0] == '0' ==> |s| == 1)
  }

  function Digit(d: nat): (c: char)
    requires d < 10
    ensures IsDigit(c)
  {
    (d + '0' as int) as char
  }

  function DigitValue(c: char): nat
    requires IsDigit(c)
  {
    c as int - '0' as int
  }

  /** The decimal numeral of `n`, as Python's `str(n)`. */
  function Dec(n: nat): (r: string)
    ensures IsNumeral(r)
  {
    if n < 10 then [Digit(n)] else Dec(n / 10) + [Digit(n % 10)]
  }

  /** The value of a string of decimal digits. */
  function ReadDec(s: string): nat
    requires AllDigits(s)
  {
    if |s| == 0 then 0 else ReadDec(s[..|s| - 1]) * 10 + DigitValue(s[|s| - 1])
  }

  lemma {:induction false} ReadDecOfDec(n: nat)
    ensures ReadDec(Dec(n)) == n
  {
    if n >= 10 {
      ReadDecOfDec(n / 10);
      assert Dec(n)[..|Dec(n)| - 1] == Dec(n / 10);
    }
  }

  lemma {:induction false} ReadDecPositive(s: string)
    requires IsNumeral(s) && s[0] != '0'
    ensures ReadDec(s) >= 1
  {
    if |s| > 1 {
      ReadDecPositive(s[..|s| - 1]);
    }
  }

  lemma {:induction false} DecOfReadDec(s: string)
    requires IsNumeral(s)
    ensures Dec(ReadDec(s)) == s
  {
    if |s| > 1 {
      var front := s[..|s| - 1];
      ReadDecPositive(front);
      DecOfReadDec(front);
      assert s == front + [s[|s| - 1]];
    }
  }

  /** `major.minor.patch`, the text both release names embed. */
  function Show(v: Version): string
  {
    Dec(v.major) + "." + Dec(v.minor) + "." + Dec(v.patch)
  }

  /**
   Reads a plain `M.m.p` string: three canonical numerals separated by dots,
   without pre-release or build suffix. It stands in for the tag parser in
   the worked scenarios.
   */
  function ReadVersion(s: string): Option<Version>
  {
    var parts := Split(s, '.');
    if |parts| == 3 && IsNumeral(parts[0]) && IsNumeral(parts[1]) && IsNumeral(parts[2]) then
      Some(Version(ReadDec(parts[0]), ReadDec(parts[1]), ReadDec(parts[2])))
    else
      None
  }

  lemma ShowIsJoin(v: Version)
    ensures Show(v) == Join([Dec(v.major), Dec(v.minor), Dec(v.patch)], '.')
  {
    var parts := [Dec(v.major), Dec(v.minor), Dec(v.patch)];
    assert parts[1..][1..] == [Dec(v.patch)];
    assert Join(parts[1..], '.') == Dec(v.minor) + "." + Dec(v.patch);
    assert Join(parts, '.') == Dec(v.major) + "." + (Dec(v.minor) + "." + Dec(v.patch));
  }

  /** `ReadVersion` accepts exactly the canonical renderings, and reads back the version rendered. */
  lemma ReadVersionInvertsShow(s: string, v: Version)
    ensures ReadVersion(s) == Some(v) <==> s == Show(v)
  {
    var parts := [Dec(v.major), Dec(v.minor), Dec(v.patch)];
    if s == Show(v) {
      ShowIsJoin(v);
      SplitJoin(parts, '.');
      ReadDecOfDec(v.major);
      ReadDecOfDec(v.minor);
      ReadDecOfDec(v.patch);
    }
    if ReadVersion(s) == Some(v) {
      var p := Split(s, '.');
      DecOfReadDec(p[0]);
      DecOfReadDec(p[1]);
      DecOfReadDec(p[2]);
      assert p == parts;
      ShowIsJoin(v);
    }
  }

  /** Distinct versions are rendered differently. */
  lemma ShowInjective(a: Version, b: Version)
    requires Show(a) == Show(b)
    ensures a == b
  {
    ReadVersionInvertsShow(Show(a), a);
    ReadVersionInvertsShow(Show(a), b);
  }

  /** The release branch, `release-M.m.p`. */
  function BranchName(v: Version): (r: string)
    ensures |r| > |BranchPrefix| && r[..|BranchPrefix|] == BranchPrefix
  {
    BranchPrefix + Show(v)
  }

  /** The release-candidate tag, `M.m.p-rc.0`. */
  function TagName(v: Version): (r: string)
    ensures |r| > |CandidateSuffix| && r[|r| - |CandidateSuffix|..] == CandidateSuffix
    ensures IsDigit(r[0])
  {
    Show(v) + CandidateSuffix
  }

  /** Both names embed the same triple: strip the prefix, append the suffix. */
  lemma {:induction false} TagFromBranch(v: Version)
    ensures BranchName(v)[|BranchPrefix|..] + CandidateSuffix == TagName(v)
  {
    assert BranchName(v)[|BranchPrefix|..] == Show(v);
  }

  /** Each name determines its version, and no branch name is ever a tag name. */
  lemma NamesAreDistinct(a: Version, b: Version)
    ensures BranchName(a) == BranchName(b) <==> a == b
    ensures TagName(a) == TagName(b) <==> a == b
    ensures BranchName(a) != TagName(b)
  {
    if BranchName(a) == BranchName(b) {
      assert Show(a) == BranchName(a)[|BranchPrefix|..];
      ShowInjective(a, b);
    }
    if TagName(a) == TagName(b) {
      assert Show(a) == TagName(a)[..|TagName(a)| - |CandidateSuffix|];
      ShowInjective(a, b);
    }
    assert BranchName(a)[0] == 'r';
  }
}
