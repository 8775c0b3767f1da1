# Release version policy, modelled in Dafny

This project models `scripts/release.py`, the script that cuts a release of
the repository. It has two parts:

- **Resolving the next version** (`new_version`). The script lists the git
  tags, parses each one as a semantic version and skips those that do not
  parse. It sorts the rest, takes the last one as the latest version, and
  applies the rollover policy. The policy checks the patch ceiling first
  (`MAX_PATCH = 40`), then the minor ceiling (`MAX_MINOR = 30`), and
  otherwise bumps the patch.
- **Publishing it** (`release`). The script derives the branch
  `release-M.m.p` and the release-candidate tag `M.m.p-rc.0`. It then runs
  five git commands in order: checkout `main`, create the branch, push the
  branch to `origin`, create the tag, push the tag. The first nonzero status
  ends the run with that status. Only when all five pass is the tag written
  to the marker file.

Modules, one per concept:

- `Versions`: the `(major, minor, patch)` triple and its lexicographic order.
  Also the sort and the "last of the sorted list" selection, with a fold
  `MaxOf` as an independent reference definition of the maximum.
- `Rollover`: the two ceilings and `Next`, the three-way rollover rule.
  `Iterate` describes a history of consecutive releases.
- `Text`: Python's `str.strip()` and `str.split(sep)`, which the tag listing
  goes through. `Join` (Python's `sep.join(parts)`) does not occur in the
  script; it is the inverse of `Split` that the contracts are stated with.
- `Names`: decimal rendering, the branch and tag names, and `ReadVersion`.
  `ReadVersion` is the inverse of the rendering. The worked scenarios use it
  as a concrete tag parser.
- `Resolver`: `new_version`. The tag parser is a parameter
  (`string -> Option<Version>`).
- `Publisher`: the command list, the fail-fast run, and the whole invocation
  with its exit status. The command runner is a parameter that maps an
  argument vector to an exit status.
- `ResolverScenarios` and `ReleaseScenarios`: worked examples.

Two behaviours of the code that one might not expect, modelled as written:

- On the major rollover the code keeps the patch number. `2.30.5` is
  followed by `3.0.5`, not `3.0.0`. In the same way, `1.30.5` is followed by
  `2.0.5`, not by `1.30.6`.
- The guard on an empty tag list (`if not tags`) can never fire. Splitting a
  string always yields at least one piece, so an empty listing produces the
  single tag `""`. When no tag parses, `versions[-1]` raises `IndexError`; the
  script does not report "no version". The model represents this crash as
  `Resolution.IndexError` and `Outcome.Crashed`. It proves that the crash
  happens exactly when the listing succeeded and no tag parsed.

## Model

| member | source | states |
|---|---|---|
| `Versions.Sort` | scripts/release.py:36 | the sorted versions are in ascending triple order and are a permutation of the parsed versions |
| `Versions.Latest` | scripts/release.py:36-38 | the last element of the sorted list is one of the parsed versions, and no parsed version exceeds it |
| `Versions.MaxOf` | scripts/release.py:38 | a fold over the list, used as the reference maximum: it is in the list and no element exceeds it |
| `Versions.LatestIsMaxOf` | scripts/release.py:36-38 | taking the last element after sorting selects the same version as the reference maximum |
| `Rollover.Next` | scripts/release.py:41-52 | the next version is strictly greater than the latest. A version that is within the ceilings (patch at most 40; minor at most 30, or 31 with patch 0) is followed by one that is also within them |
| `Rollover.PatchCeilingBumpsMinor` | scripts/release.py:43-45 | when patch >= 40, the minor is bumped and the patch reset, with major unchanged. This holds whatever the minor is, because the patch check comes first |
| `Rollover.MinorCeilingBumpsMajor` | scripts/release.py:46-48 | when patch < 40 and minor >= 30, the major is bumped and the minor reset. The patch is carried over unchanged |
| `Rollover.BelowCeilingsBumpsPatch` | scripts/release.py:49-50 | below both ceilings only the patch moves, by one. The result is the immediate successor: no version lies strictly between it and the latest |
| `Rollover.Boundaries` | scripts/release.py:41-52 | the boundary cases: 1.2.40 to 1.3.0, 1.30.40 to 1.31.0, 1.30.5 to 2.0.5, 2.30.5 to 3.0.5, 2.30.0 to 3.0.0, 0.9.39 to 0.9.40 |
| `Rollover.IterateStrictlyIncreases` | scripts/release.py:41-52 | consecutive releases form a strictly increasing history, so no version number is ever issued twice |
| `Rollover.IterateWithinCeilings` | scripts/release.py:8-9 | a history that starts within the ceilings stays within them. The minor can overshoot its ceiling only by one, and only with patch 0 |
| `Text.Strip` | scripts/release.py:20 | the result has no whitespace at either end. It is the input with only whitespace removed from the front and the back |
| `Text.Split` | scripts/release.py:20 | there is always at least one piece. No piece contains the separator, and joining the pieces with the separator gives back the input |
| `Text.SplitJoin` | scripts/release.py:20 | splitting is the only decomposition into separator-free pieces: joining such pieces and splitting again returns them |
| `Resolver.Tags` | scripts/release.py:20-25 | the tag list is never empty, so the `if not tags` guard is dead. No tag contains a newline, and joined with newlines the tags are the stripped listing, which with `Text.SplitJoin` determines the list |
| `Resolver.TagsOfLines` | scripts/release.py:20 | a listing with one tag per line, each line ended by a newline, yields exactly those tags, provided the first and last tags have no whitespace at their outer ends |
| `Resolver.ParseAll` | scripts/release.py:27-34 | a version is kept exactly when some tag parses to it. Tags that fail to parse are dropped without aborting, and the result is no longer than the tag list |
| `Resolver.ResolveNext` | scripts/release.py:12-52 | it returns None exactly when the listing command fails. It raises IndexError exactly when the listing succeeds and no tag parses. Otherwise the latest version comes from a tag, no parsed tag exceeds it, and the result is its rollover, which is strictly greater |
| `Resolver.ResolvesToTheMaximum` | scripts/release.py:36-52 | any parsed version that no parsed tag exceeds is the one selected, and its rollover is returned |
| `Resolver.EmptyListingHasOneEmptyTag` | scripts/release.py:20-38 | an empty listing yields the single tag `""`. If that tag does not parse, the run reaches `versions[-1]` and crashes instead of returning None |
| `ResolverScenarios.BogusTagIsSkipped` | scripts/release.py:27-52 | the listing `1.0.0`, `1.0.1`, `bogus` resolves to latest 1.0.1 and next 1.0.2 |
| `Names.Dec` | scripts/release.py:64-65 | each number is rendered as a canonical decimal numeral: non-empty, digits only, no leading zero |
| `Names.ReadVersionInvertsShow` | scripts/release.py:64-65 | `M.m.p` rendering is a bijection with plain version strings: a string reads back as a version exactly when it is that version's rendering |
| `Names.BranchName` | scripts/release.py:64 | the branch name starts with `release-` and continues past it |
| `Names.TagName` | scripts/release.py:65 | the tag name ends with `-rc.0` and starts with a digit |
| `Names.TagFromBranch` | scripts/release.py:64-65 | removing `release-` from the branch and appending `-rc.0` gives the tag, so both names embed the same triple |
| `Names.NamesAreDistinct` | scripts/release.py:64-65 | each branch name and each tag name determines its version, and no branch name equals any tag name |
| `Publisher.CommandsAreDistinct` | scripts/release.py:67-74 | the five commands of a release run pairwise different argument vectors |
| `Publisher.RunSequence` | scripts/release.py:76-80 | the run passes exactly when every status is zero. Otherwise it stops at a position whose status is nonzero, reports that status, and every earlier status is zero |
| `Publisher.Publish` | scripts/release.py:67-83 | the marker receives the tag exactly when all five commands return zero. On a failure, the commands that ran are a non-empty prefix of the list, in order. The last of them returned the exit code, which is nonzero, and all the others returned zero |
| `Publisher.RunInOrder` | scripts/release.py:76-83 | the imperative loop that checks each status as it arrives gives the same outcome as the fold |
| `Publisher.Release` | scripts/release.py:55-83 | a failed listing ends as "no new version". A listing with no parsable tag ends in the IndexError crash. Otherwise the outcome is the publication of the resolved next version |
| `Publisher.ReleaseExitStatus` | scripts/release.py:55-83 | the process exits with 1 when the listing fails or no tag parses (the second through the uncaught IndexError), with the failing command's own nonzero status when a command fails, and with 0 when the marker is written |
| `Publisher.ExitsZeroIffPublished` | scripts/release.py:58-60 | the process exits with status 0 exactly when the marker was written. Every other ending has a nonzero status |
| `Publisher.PushBranchFailureStopsBeforeTags` | scripts/release.py:67-80 | when the branch push fails after the checkout and branch creation pass, the run exits with that push's status. The commands that ran are the first three, and neither tag command runs |
| `ReleaseScenarios.EndToEnd` | scripts/release.py:55-83 | from the listing `0.9.38`, `0.9.39` with every command passing: the branch is `release-0.9.40`, the marker holds `0.9.40-rc.0`, and the exit status is 0 |

## Left out

- The git processes (`subprocess.run`) are not modelled. The tag listing is
  represented by its exit status and its standard output. Each later command
  is represented by the exit status a runner parameter gives for its
  argument vector. Captured standard error is not modelled.
- Decoding the process output from bytes is not modelled. The listing's
  output is taken as an already-decoded string.
- The `semantic_version` library is not part of this model. Tag parsing is a
  parameter, and versions are ordered by the numeric triple only. This is
  enough for the result: the library orders by the triple first and only
  then by pre-release, so the last element of its sort has the largest
  triple. Only that triple is used afterwards. `ReadVersion` accepts plain
  `M.m.p` only and is used only in the worked scenarios.
- The truthiness test `if not v` is modelled as "`new_version` returned
  None".
- `Publisher.ExitStatus` gives the failing command's status as returned. The
  operating system's reduction of an exit status to 0-255 is not modelled,
  and neither is the status a negative (signal) return code becomes.
- The diagnostic `print` calls are not modelled; they are output only.
- Writing `/tmp/latest_tag_version` is represented by the outcome
  `Published(marker)`, which carries the text the file would receive.
