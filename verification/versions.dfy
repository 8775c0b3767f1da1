/**
 The (major, minor, patch) triple of a semantic version, its lexicographic
 order, and the "sort, then take the last element" selection of the latest
 version.
 */
module Versions {

  datatype Version = Version(major: nat, minor: nat, patch: nat)

  /** Lexicographic order on (major, minor, patch). */
  predicate Le(a: Version, b: Version)
  {
    || a.major < b.major
    || (a.major == b.major && a.minor < b.minor)
    || (a.major == b.major && a.minor == b.minor && a.patch <= b.patch)
  }

  predicate Lt(a: Version, b: Version)
  {
    Le(a, b) && a != b
  }

  lemma LeIsTotalOrder(a: Version, b: Version, c: Version)
    ensures Le(a, a)
    ensures Le(a, b) || Le(b, a)
    ensures Le(a, b) && Le(b, a) ==> a == b
    ensures Le(a, b) && Le(b, c) ==> Le(a, c)
  {
  }

  lemma LtTransitive(a: Version, b: Version, c: Version)
    requires Lt(a, b) && Lt(b, c)
    ensures Lt(a, c)
  {
  }

  predicate Sorted(s: seq<Version>)
  {
    forall i, j :: 0 <= i < j < |s| ==> Le(s[i], s[j])
  }

  /** `x` is an element of `s` that no element of `s` exceeds. */
  predicate IsMax(x: Version, s: seq<Version>)
  {
    x in s && forall w :: w in s ==> Le(w, x)
  }

  /** Places `x` before the first element it does not exceed. */
  function Insert(x: Version, s: seq<Version>): (r: seq<Version>)
    requires Sorted(s)
    ensures Sorted(r)
    ensures multiset(r) == multiset(s) + multiset{x}
  {
    if |s| == 0 then [x]
    else if Le(x, s[0]) then [x] + s
    else
      var tail := Insert(x, s[1..]);
      assert Le(s[0], tail[0]) by {
        assert tail[0] in multiset(tail);
      }
      assert s == [s[0]] + s[1..];
      [s[0]] + tail
  }

  /** Ascending sort of the parsed versions (`versions.sort()` in scripts/release.py). */
  function Sort(s: seq<Version>): (r: seq<Version>)
    ensures Sorted(r)
    ensures multiset(r) == multiset(s)
  {
    if |s| == 0 then []
    else
      assert s == [s[0]] + s[1..];
      Insert(s[0], Sort(s[1..]))
  }

  /** The last element of the sorted list: `versions[-1]` in scripts/release.py. */
  function Latest(s: seq<Version>): (r: Version)
    requires |s| > 0
    ensures IsMax(r, s)
  {
    var sorted := Sort(s);
    assert |sorted| == |s| by {
      assert |multiset(sorted)| == |multiset(s)|;
    }
    var r := sorted[|sorted| - 1];
    assert r in multiset(s) by {
      assert r in multiset(sorted);
    }
    forall w | w in s
      ensures Le(w, r)
    {
      assert w in multiset(sorted);
      var k :| 0 <= k < |sorted| && sorted[k] == w;
      if k < |sorted| - 1 {
        assert Le(sorted[k], sorted[|sorted| - 1]);
      }
    }
    r
  }

  /** A reference definition of the maximum, as a left-to-right fold. */
  function MaxOf(s: seq<Version>): (r: Version)
    requires |s| > 0
    ensures IsMax(r, s)
  {
    if |s| == 1 then s[0]
    else
      var m := MaxOf(s[1..]);
      assert s == [s[0]] + s[1..];
      if Le(s[0], m) then m else s[0]
  }

  /** There is only one maximum of a list under a total order. */
  lemma MaxIsUnique(x: Version, y: Version, s: seq<Version>)
    requires IsMax(x, s) && IsMax(y, s)
    ensures x == y
  {
    assert Le(x, y) && Le(y, x);
    LeIsTotalOrder(x, y, y);
  }

  /** Taking the last element of the sorted list selects the maximum. */
  lemma LatestIsMaxOf(s: seq<Version>)
    requires |s| > 0
    ensures Latest(s) == MaxOf(s)
  {
    MaxIsUnique(Latest(s), MaxOf(s), s);
  }
}
