/**
 Resolving the next version (`new_version` in scripts/release.py): list the
 tags, keep those that parse, take the last of the sorted versions and apply
 the rollover policy.
 */
module Resolver {
  import opened Wrappers
  import opened Versions
  import Rollover
  import opened Text
  import opened Names

  /** A tag parser; the real one is a library and is a parameter here. */
  type Parser = string -> Option<Version>

  datatype Resolution =
    | NoVersion                                  // new_version returned None
    | IndexError                                 // versions[-1] raised on an empty list
    | Resolved(latest: Version, next: Version)   // the latest version and its successor

  /** The tag list: the listing's standard output, stripped and split at newlines. */
  function Tags(stdout: string): (tags: seq<string>)
    ensures |tags| >= 1
    ensures SeparatorFree(tags, '\n')
    ensures Join(tags, '\n') == Strip(stdout)
  {
    Split(Strip(stdout), '\n')
  }

  /** The versions of the tags that parse, in tag order; tags that do not parse are skipped. */
  function ParseAll(tags: seq<string>, parse: Parser): (vs: seq<Version>)
    ensures |vs| <= |tags|
    ensures forall v :: v in vs <==> exists t :: t in tags && parse(t) == Some(v)
  {
    if |tags| == 0 then []
    else
      var rest := ParseAll(tags[1..], parse);
      assert forall t :: t in tags <==> t == tags[0] || t in tags[1..];
      match parse(tags[0])
      case Some(v) => [v] + rest
      case None => rest
  }

  /**
   `new_version`, given the exit status and standard output of the tag
   listing. The guard on an empty tag list is kept as the script writes it.
   */
  function ResolveNext(status: int, stdout: string, parse: Parser): (r: Resolution)
    ensures r.NoVersion? <==> status != 0
    ensures r.IndexError? <==> status == 0 && forall t :: t in Tags(stdout) ==> parse(t).None?
    ensures r.Resolved? ==>
              && (exists t :: t in Tags(stdout) && parse(t) == Some(r.latest))
              && (forall t :: t in Tags(stdout) && parse(t).Some? ==> Le(parse(t).value, r.latest))
              && r.next == Rollover.Next(r.latest)
              && Lt(r.latest, r.next)
  {
    if status != 0 then NoVersion
    else
      var tags := Tags(stdout);
      if |tags| == 0 then NoVersion
      else
        var versions := ParseAll(tags, parse);
        if |versions| == 0 then
          IndexError
        else
          var latest := Latest(versions);
          Resolved(latest, Rollover.Next(latest))
  }

  /**
   A listing with one tag per line, each line ended by a newline, gives back
   those tags, provided the first tag does not start and the last tag does
   not end with whitespace (which the strip would remove).
   */
  lemma TagsOfLines(tags: seq<string>)
    requires |tags| >= 1
    requires SeparatorFree(tags, '\n')
    requires |tags[0]| >= 1 && !IsSpace(tags[0][0])
    requires |tags[|tags| - 1]| >= 1 && !IsSpace(tags[|tags| - 1][|tags[|tags| - 1]| - 1])
    ensures Tags(Join(tags, '\n') + "\n") == tags
  {
    var joined := Join(tags, '\n');
    var stdout := joined + "\n";
    JoinEnds(tags, '\n');
    assert stdout[0] == tags[0][0];
    assert LeadingSpace(stdout) == 0;
    assert stdout[..|stdout| - 1] == joined;
    assert joined[|joined| - 1] == tags[|tags| - 1][|tags[|tags| - 1]| - 1];
    assert TrailingSpace(joined) == 0;
    assert TrailingSpace(stdout) == 1;
    assert Strip(stdout) == joined;
    SplitJoin(tags, '\n');
  }

  /** A version some tag parses to and no parsed tag exceeds is the one selected. */
  lemma ResolvesToTheMaximum(stdout: string, parse: Parser, t: string, v: Version)
    requires t in Tags(stdout) && parse(t) == Some(v)
    requires forall u :: u in Tags(stdout) && parse(u).Some? ==> Le(parse(u).value, v)
    ensures ResolveNext(0, stdout, parse) == Resolved(v, Rollover.Next(v))
  {
    var r := ResolveNext(0, stdout, parse);
    assert r.Resolved?;
    var u :| u in Tags(stdout) && parse(u) == Some(r.latest);
    assert Le(r.latest, v) && Le(v, r.latest);
  }

  /**
   The empty-tag-list guard never fires: splitting always yields at least one
   piece, so an empty listing gives the one tag "" and no version.
   */
  lemma EmptyListingHasOneEmptyTag(stdout: string, parse: Parser)
    requires Strip(stdout) == ""
    requires parse("").None?
    ensures Tags(stdout) == [""]
    ensures ResolveNext(0, stdout, parse) == IndexError
  {
  }
}

/**
 Worked scenarios, with `ReadVersion` as the tag parser. The listings are
 parameters fixed by a `requires` rather than literals in the `ensures`, so
 that the verifier does not unfold `Strip` and `Split` on them eagerly.
 */
module ResolverScenarios {
  import opened Wrappers
  import opened Versions
  import opened Text
  import opened Names
  import opened Resolver

  lemma ReadsPlainVersion(s: string, v: Version)
    requires s == Show(v)
    ensures ReadVersion(s) == Some(v)
  {
    ReadVersionInvertsShow(s, v);
  }

  lemma JoinsThreeTags(tags: seq<string>)
    requires tags == ["1.0.0", "1.0.1", "bogus"]
    ensures Join(tags, '\n') == "1.0.0\n1.0.1\nbogus"
  {
    assert tags[1..][1..] == ["bogus"];
    assert Join(tags[1..], '\n') == "1.0.1" + "\n" + "bogus";
    assert Join(tags, '\n') == "1.0.0" + "\n" + ("1.0.1" + "\n" + "bogus");
  }

  lemma ListsThreeTags(stdout: string, tags: seq<string>)
    requires stdout == "1.0.0\n1.0.1\nbogus\n"
    requires tags == ["1.0.0", "1.0.1", "bogus"]
    ensures Tags(stdout) == tags
  {
    JoinsThreeTags(tags);
    assert stdout == Join(tags, '\n') + "\n";
    TagsOfLines(tags);
  }

  lemma ParsesThreeTags(tags: seq<string>)
    requires tags == ["1.0.0", "1.0.1", "bogus"]
    ensures ReadVersion(tags[0]) == Some(Version(1, 0, 0))
    ensures ReadVersion(tags[1]) == Some(Version(1, 0, 1))
    ensures ReadVersion(tags[2]) == None
  {
    ReadsPlainVersion(tags[0], Version(1, 0, 0));
    ReadsPlainVersion(tags[1], Version(1, 0, 1));
    SplitWithoutSeparator(tags[2], '.');
  }

  /**
   A malformed tag is skipped and the latest well-formed one is bumped: the
   listing `1.0.0`, `1.0.1`, `bogus` resolves to 1.0.2.
   */
  lemma BogusTagIsSkipped(stdout: string)
    requires stdout == "1.0.0\n1.0.1\nbogus\n"
    ensures ResolveNext(0, stdout, ReadVersion) == Resolved(Version(1, 0, 1), Version(1, 0, 2))
  {
    var tags := ["1.0.0", "1.0.1", "bogus"];
    ListsThreeTags(stdout, tags);
    ParsesThreeTags(tags);
    forall u | u in tags && ReadVersion(u).Some?
      ensures Le(ReadVersion(u).value, Version(1, 0, 1))
    {
      assert u == tags[0] || u == tags[1];
    }
    ResolvesToTheMaximum(stdout, ReadVersion, tags[1], Version(1, 0, 1));
  }
}
