/**
 Publishing a release (`release` in scripts/release.py): resolve the next
 version, derive the branch and tag names, run the five git commands in order
 stopping at the first failure, and hand off the tag only when all succeed.
 */
module Publisher {
  import opened Wrappers
  import opened Versions
  import opened Names
  import opened Resolver

  const MainBranch: string := "main"
  const Remote: string := "origin"

  /** The version-control operations a release performs. */
  datatype GitOp =
    | CheckoutMain
    | CreateBranch(branch: string)
    | PushBranch(branch: string)
    | CreateTag(tag: string)
    | PushTag(tag: string)

  /** The argument vector each operation runs. */
  function Argv(op: GitOp): seq<string>
  {
    match op
    case CheckoutMain => ["git", "checkout", MainBranch]
    case CreateBranch(b) => ["git", "checkout", "-b", b]
    case PushBranch(b) => ["git", "push", Remote, b]
    case CreateTag(t) => ["git", "tag", t]
    case PushTag(t) => ["git", "push", Remote, t]
  }

  /** The exit status each argument vector returns when run; the processes themselves are not modelled. */
  type Runner = seq<string> -> int

  /** The release's commands, in the order they run. */
  function Commands(v: Version): seq<GitOp>
  {
    [CheckoutMain, CreateBranch(BranchName(v)), PushBranch(BranchName(v)), CreateTag(TagName(v)), PushTag(TagName(v))]
  }

  /** No two of a release's commands run the same argument vector. */
  lemma CommandsAreDistinct(v: Version, i: int, j: int)
    requires 0 <= i < j < |Commands(v)|
    ensures Argv(Commands(v)[i]) != Argv(Commands(v)[j])
  {
    NamesAreDistinct(v, v);
  }

  /** Where a run of commands ended. */
  datatype RunResult = AllPassed | Stopped(at: nat, code: int)

  /**
   The fail-fast loop as a fold over the statuses the commands return: the
   first nonzero status stops the run at that position.
   */
  function RunSequence(statuses: seq<int>): (r: RunResult)
    ensures r.AllPassed? <==> forall i :: 0 <= i < |statuses| ==> statuses[i] == 0
    ensures r.Stopped? ==>
              && r.at < |statuses|
              && r.code == statuses[r.at]
              && r.code != 0
              && forall i :: 0 <= i < r.at ==> statuses[i] == 0
  {
    if |statuses| == 0 then AllPassed
    else if statuses[0] != 0 then Stopped(0, statuses[0])
    else
      match RunSequence(statuses[1..])
      case AllPassed => AllPassed
      case Stopped(at, code) => Stopped(at + 1, code)
  }

  /** The status each command returns. */
  function Statuses(ops: seq<GitOp>, run: Runner): (s: seq<int>)
    ensures |s| == |ops|
    ensures forall i :: 0 <= i < |ops| ==> s[i] == run(Argv(ops[i]))
  {
    if |ops| == 0 then [] else [run(Argv(ops[0]))] + Statuses(ops[1..], run)
  }

  /** How an invocation ends. */
  datatype Outcome =
    | NoNewVersion                           // new_version returned None: exit status 1
    | Crashed                                // versions[-1] raised IndexError
    | Aborted(code: int, ran: seq<GitOp>)    // a command failed: exit with its status
    | Published(marker: string)              // all commands passed: the marker file holds the tag

  /** Runs the commands of the release of `v`. */
  function Publish(v: Version, run: Runner): (r: Outcome)
    ensures r.Aborted? || r.Published?
    ensures r.Published? <==> forall op :: op in Commands(v) ==> run(Argv(op)) == 0
    ensures r.Published? ==> r.marker == TagName(v)
    ensures r.Aborted? ==>
              && r.code != 0
              && 1 <= |r.ran| <= |Commands(v)|
              && r.ran == Commands(v)[..|r.ran|]
              && run(Argv(r.ran[|r.ran| - 1])) == r.code
              && forall i :: 0 <= i < |r.ran| - 1 ==> run(Argv(r.ran[i])) == 0
  {
    var ops := Commands(v);
    match RunSequence(Statuses(ops, run))
    case AllPassed => Published(TagName(v))
    case Stopped(at, code) => Aborted(code, ops[..at + 1])
  }

  /** The `for command in commands` loop of scripts/release.py, checking each status as it comes. */
  method RunInOrder(v: Version, run: Runner) returns (r: Outcome)
    ensures r == Publish(v, run)
  {
    var ops := Commands(v);
    var i := 0;
    while i < |ops|
      invariant 0 <= i <= |ops|
      invariant forall k :: 0 <= k < i ==> run(Argv(ops[k])) == 0
    {
      var status := run(Argv(ops[i]));
      if status != 0 {
        ghost var r' := RunSequence(Statuses(ops, run));
        assert r'.Stopped? && r'.at == i;
        return Aborted(status, ops[..i + 1]);
      }
      i := i + 1;
    }
    r := Published(TagName(v));
  }

  /** The whole invocation, given the tag listing's status and output, a tag parser and a command runner. */
  function Release(status: int, stdout: string, parse: Parser, run: Runner): (r: Outcome)
    ensures r.NoNewVersion? <==> status != 0
    ensures r.Crashed? <==> status == 0 && forall t :: t in Tags(stdout) ==> parse(t).None?
    ensures ResolveNext(status, stdout, parse).Resolved? ==>
              r == Publish(ResolveNext(status, stdout, parse).next, run)
  {
    match ResolveNext(status, stdout, parse)
    case NoVersion => NoNewVersion
    case IndexError => Crashed
    case Resolved(_, next) => Publish(next, run)
  }

  /**
   The process exit status: 1 when no version is found, 1 for the uncaught
   IndexError (the interpreter's status for an uncaught exception), the
   failing command's status, or 0.
   */
  function ExitStatus(o: Outcome): int
  {
    match o
    case NoNewVersion => 1
    case Crashed => 1
    case Aborted(code, _) => code
    case Published(_) => 0
  }

  /**
   What the process exits with: 1 when the listing fails or no tag parses,
   the failing command's own (nonzero) status when a command fails, and 0
   when the marker is written.
   */
  lemma ReleaseExitStatus(status: int, stdout: string, parse: Parser, run: Runner)
    ensures status != 0 ==> ExitStatus(Release(status, stdout, parse, run)) == 1
    ensures status == 0 && (forall t :: t in Tags(stdout) ==> parse(t).None?) ==>
              ExitStatus(Release(status, stdout, parse, run)) == 1
    ensures Release(status, stdout, parse, run).Aborted? ==>
              var ran := Release(status, stdout, parse, run).ran;
              |ran| >= 1 && ExitStatus(Release(status, stdout, parse, run)) == run(Argv(ran[|ran| - 1])) != 0
    ensures Release(status, stdout, parse, run).Published? ==> ExitStatus(Release(status, stdout, parse, run)) == 0
  {
    var r := ResolveNext(status, stdout, parse);
    if r.Resolved? {
      var p := Publish(r.next, run);
      assert Release(status, stdout, parse, run) == p;
    }
  }

  /** The invocation succeeds exactly when every command passed and the marker was written. */
  lemma ExitsZeroIffPublished(status: int, stdout: string, parse: Parser, run: Runner)
    ensures ExitStatus(Release(status, stdout, parse, run)) == 0 <==> Release(status, stdout, parse, run).Published?
  {
  }

  /**
   When pushing the branch fails, the run exits with that status after the
   checkout and branch creation, and neither tag command runs.
   */
  lemma PushBranchFailureStopsBeforeTags(v: Version, run: Runner)
    requires run(Argv(CheckoutMain)) == 0
    requires run(Argv(CreateBranch(BranchName(v)))) == 0
    requires run(Argv(PushBranch(BranchName(v)))) != 0
    ensures Publish(v, run) == Aborted(run(Argv(PushBranch(BranchName(v)))), Commands(v)[..3])
    ensures CreateTag(TagName(v)) !in Publish(v, run).ran && PushTag(TagName(v)) !in Publish(v, run).ran
  {
    var r := Publish(v, run);
    assert r.Aborted? by {
      assert PushBranch(BranchName(v)) in Commands(v);
    }
    var ops := Commands(v);
    var last := |r.ran| - 1;
    assert r.ran[last] == ops[last];
    assert last != 0 by {
      assert ops[0] == CheckoutMain;
    }
    assert last != 1 by {
      assert ops[1] == CreateBranch(BranchName(v));
    }
    assert ops[2] == PushBranch(BranchName(v));
    assert r.ran == ops[..3];
    assert ops[..3] == [CheckoutMain, CreateBranch(BranchName(v)), PushBranch(BranchName(v))];
  }
}

/**
 A release from the listing `0.9.38`, `0.9.39`, with `ReadVersion` as the
 tag parser. As in `ResolverScenarios`, the listing is a parameter fixed by a
 `requires`, so that the verifier does not unfold `Strip` and `Split` on it.
 */
module ReleaseScenarios {
  import opened Wrappers
  import opened Versions
  import opened Text
  import opened Names
  import opened Resolver
  import opened Publisher

  lemma ListsTwoTags(stdout: string, tags: seq<string>)
    requires stdout == "0.9.38\n0.9.39\n"
    requires tags == ["0.9.38", "0.9.39"]
    ensures Tags(stdout) == tags
  {
    assert tags[1..] == ["0.9.39"];
    assert Join(tags, '\n') == "0.9.38" + "\n" + "0.9.39";
    assert stdout == Join(tags, '\n') + "\n";
    TagsOfLines(tags);
  }

  lemma ParsesTwoTags(tags: seq<string>)
    requires tags == ["0.9.38", "0.9.39"]
    ensures ReadVersion(tags[0]) == Some(Version(0, 9, 38))
    ensures ReadVersion(tags[1]) == Some(Version(0, 9, 39))
  {
    assert Show(Version(0, 9, 38)) == tags[0];
    assert Show(Version(0, 9, 39)) == tags[1];
    ReadVersionInvertsShow(tags[0], Version(0, 9, 38));
    ReadVersionInvertsShow(tags[1], Version(0, 9, 39));
  }

  lemma ResolvesToNinetyForty(stdout: string)
    requires stdout == "0.9.38\n0.9.39\n"
    ensures ResolveNext(0, stdout, ReadVersion) == Resolved(Version(0, 9, 39), Version(0, 9, 40))
  {
    var tags := ["0.9.38", "0.9.39"];
    ListsTwoTags(stdout, tags);
    ParsesTwoTags(tags);
    forall u | u in tags && ReadVersion(u).Some?
      ensures Le(ReadVersion(u).value, Version(0, 9, 39))
    {
      assert u == tags[0] || u == tags[1];
    }
    ResolvesToTheMaximum(stdout, ReadVersion, tags[1], Version(0, 9, 39));
  }

  lemma NamesNinetyForty(v: Version)
    requires v == Version(0, 9, 40)
    ensures BranchName(v) == "release-0.9.40"
    ensures TagName(v) == "0.9.40-rc.0"
  {
    assert Dec(40) == "40";
    assert Show(v) == "0.9.40";
  }

  /**
   End to end: the next version is 0.9.40, the branch is `release-0.9.40`,
   the tag is `0.9.40-rc.0`, and when every command passes the marker holds
   the tag and the exit status is 0.
   */
  lemma EndToEnd(stdout: string, run: Runner)
    requires stdout == "0.9.38\n0.9.39\n"
    requires forall argv :: run(argv) == 0
    ensures BranchName(Version(0, 9, 40)) == "release-0.9.40"
    ensures Release(0, stdout, ReadVersion, run) == Published("0.9.40-rc.0")
    ensures ExitStatus(Release(0, stdout, ReadVersion, run)) == 0
  {
    var v := Version(0, 9, 40);
    ResolvesToNinetyForty(stdout);
    NamesNinetyForty(v);
    assert Publish(v, run).Published?;
  }
}
