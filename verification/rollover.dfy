/**
 The version-increment policy: the next release number is computed from the
 latest existing version by checking the patch ceiling first, then the minor
 ceiling, and otherwise bumping the patch.
 */
module Rollover {
  import opened Versions

  /** Patch number at or above which the minor number is bumped instead. */
  const MaxPatch: nat := 40
  /** Minor number at or above which the major number is bumped instead. */
  const MaxMinor: nat := 30

  /**
   The ceilings a release history stays within once it starts within them:
   patch never exceeds MaxPatch, and minor exceeds MaxMinor only as
   MaxMinor + 1 with patch 0 (the version reached from x.MaxMinor.MaxPatch).
   */
  predicate WithinCeilings(v: Version)
  {
    && v.patch <= MaxPatch
    && (v.minor <= MaxMinor || (v.minor == MaxMinor + 1 && v.patch == 0))
  }

  /**
   The next version. On the major rollover the patch number is carried over,
   not reset: 2.30.5 is followed by 3.0.5.
   */
  function Next(v: Version): (r: Version)
    ensures Lt(v, r)
    ensures WithinCeilings(v) ==> WithinCeilings(r)
  {
    if v.patch >= MaxPatch then
      Version(v.major, v.minor + 1, 0)
    else if v.minor >= MaxMinor then
      Version(v.major + 1, 0, v.patch)
    else
      Version(v.major, v.minor, v.patch + 1)
  }

  /** The patch ceiling is checked first and wins over the minor ceiling. */
  lemma PatchCeilingBumpsMinor(v: Version)
    requires v.patch >= MaxPatch
    ensures Next(v) == Version(v.major, v.minor + 1, 0)
  {
  }

  /** Below the patch ceiling, the minor ceiling bumps major and keeps patch. */
  lemma MinorCeilingBumpsMajor(v: Version)
    requires v.patch < MaxPatch && v.minor >= MaxMinor
    ensures Next(v) == Version(v.major + 1, 0, v.patch)
  {
  }

  /** Below both ceilings only the patch moves, to its immediate successor. */
  lemma BelowCeilingsBumpsPatch(v: Version, w: Version)
    requires v.patch < MaxPatch && v.minor < MaxMinor
    ensures Next(v) == Version(v.major, v.minor, v.patch + 1)
    ensures Lt(v, w) ==> Le(Next(v), w)
  {
  }

  lemma Boundaries()
    ensures Next(Version(1, 2, 40)) == Version(1, 3, 0)
    ensures Next(Version(1, 30, 40)) == Version(1, 31, 0)
    ensures Next(Version(1, 30, 5)) == Version(2, 0, 5)
    ensures Next(Version(2, 30, 5)) == Version(3, 0, 5)
    ensures Next(Version(2, 30, 0)) == Version(3, 0, 0)
    ensures Next(Version(0, 9, 39)) == Version(0, 9, 40)
  {
  }

  /** The version after `n` consecutive releases starting from `v`. */
  function Iterate(v: Version, n: nat): Version
  {
    if n == 0 then v else Next(Iterate(v, n - 1))
  }

  /** Repeated releases never reuse a version: the history is strictly increasing. */
  lemma {:induction false} IterateStrictlyIncreases(v: Version, i: nat, j: nat)
    requires i < j
    ensures Lt(Iterate(v, i), Iterate(v, j))
  {
    if j == i + 1 {
    } else {
      IterateStrictlyIncreases(v, i, j - 1);
      LtTransitive(Iterate(v, i), Iterate(v, j - 1), Iterate(v, j));
    }
  }

  /** A history that starts within the ceilings stays within them. */
  lemma {:induction false} IterateWithinCeilings(v: Version, n: nat)
    requires WithinCeilings(v)
    ensures WithinCeilings(Iterate(v, n))
  {
    if n > 0 {
      IterateWithinCeilings(v, n - 1);
    }
  }
}
