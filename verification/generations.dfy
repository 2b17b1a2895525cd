/**
 * How the two generations of `findNewTests` relate.  On diffs without
 * removed lines they agree, except where the legacy parser tests for a
 * declaration before it tests for an intermediate `@` line; the current
 * parser's extra work (per-hunk lists, removal counting) only matters once
 * something is removed.
 */
module Generations {
  import opened Wrappers
  import opened Text
  import opened Markers
  import opened Diff
  import TestParser
  import LegacyTestParser

  /**
   * A line both parsers read alike: not a removed line, and not an added
   * `@` line with the `fun` keyword unless that line is a marker line.
   */
  predicate Comparable(k: LineKind) {
    && !k.Removed?
    && (k.Added? && StartsWith(k.content, "@") && ContainsFunDeclaration(k.content) ==> IsTestAnnotation(k.content))
  }

  /**
   * The current parser's state `c` stands for the legacy state `l`: what
   * the legacy parser has already reported is what the current one has
   * reported plus what it holds in the open hunk, and no removal has been
   * counted.
   */
  predicate Corresponds(c: TestParser.State, l: LegacyTestParser.State) {
    && c.results + c.addedTests == l.results
    && c.currentFile == l.currentFile
    && c.addedPending == l.pending
    && c.removedCount == 0
  }

  /** With no removal counted, a flush moves the whole hunk list to the results. */
  lemma FlushWithoutRemovals(c: TestParser.State)
    requires c.removedCount == 0
    ensures TestParser.FlushHunk(c).results == c.results + c.addedTests
  {
    var f := TestParser.FlushHunk(c);
    assert f.results == f.results[..|c.results|] + f.results[|c.results|..];
  }

  /** One comparable line keeps the correspondence. */
  lemma StepCorresponds(c: TestParser.State, l: LegacyTestParser.State, k: LineKind)
    requires Corresponds(c, l) && Comparable(k)
    ensures Corresponds(TestParser.Step(c, k), LegacyTestParser.Step(l, k))
  {
    match k {
      case FileHeader(_) => FlushWithoutRemovals(c);
      case HunkHeader => FlushWithoutRemovals(c);
      case Added(content) =>
        OneLineFormIsMarkerWithFun(content);
        var c' := TestParser.AddedLine(c, content);
        if c'.addedTests != c.addedTests {
          assert c'.addedTests == c.addedTests + DeclaredTest(content, c.currentFile);
          assert c.results + c'.addedTests == l.results + DeclaredTest(content, c.currentFile);
        }
      case Metadata =>
      case Context =>
    }
  }

  /** The correspondence holds after any run of comparable lines. */
  lemma {:induction false} RunCorresponds(c: TestParser.State, l: LegacyTestParser.State, ks: seq<LineKind>)
    requires Corresponds(c, l)
    requires forall i :: 0 <= i < |ks| ==> Comparable(ks[i])
    ensures Corresponds(TestParser.Run(c, ks), LegacyTestParser.Run(l, ks))
    decreases |ks|
  {
    if |ks| > 0 {
      var pre := ks[..|ks| - 1];
      RunCorresponds(c, l, pre);
      StepCorresponds(TestParser.Run(c, pre), LegacyTestParser.Run(l, pre), ks[|ks| - 1]);
    }
  }

  /**
   * On a diff that removes nothing and has no `@` line with the `fun`
   * keyword other than a marker line, both generations report the same
   * tests, in the same order.
   */
  lemma SameReportsWithoutRemovals(diff: string)
    requires forall k | k in Kinds(Lines(diff)) :: Comparable(k)
    ensures TestParser.FindNewTests(diff) == LegacyTestParser.FindNewTests(diff)
  {
    var ks := Kinds(Lines(diff));
    RunCorresponds(TestParser.Initial, LegacyTestParser.Initial, ks);
    FlushWithoutRemovals(TestParser.Run(TestParser.Initial, ks));
  }

  /**
   * Where the generations part: while a marker is pending, an added `@` line
   * with the `fun` keyword that is not itself a marker line is skipped as an
   * intermediate annotation by the current parser, but taken as the
   * declaration by the legacy one, which clears the marker and reports
   * whatever name extracts from it.
   */
  lemma AtLineWithFunDiverges(c: TestParser.State, l: LegacyTestParser.State, content: string)
    requires c.addedPending && l.pending
    requires StartsWith(content, "@") && !IsTestAnnotation(content) && ContainsFunDeclaration(content)
    ensures TestParser.AddedLine(c, content) == c
    ensures LegacyTestParser.AddedLine(l, content)
            == l.(results := l.results + DeclaredTest(content, l.currentFile), pending := false)
  {
    OneLineFormIsMarkerWithFun(content);
  }

  /**
   * Where the generations part on removals: a hunk that removes a marked
   * declaration and adds one back is reported by the legacy parser but not
   * by the current one.
   */
  lemma ReplacementIsReportedOnlyByLegacy(marker: string, oldDecl: string, newDecl: string,
                                          name: string, path: string, results: seq<NewTestInfo>)
    requires IsBareMarker(marker) && IsDeclarationLine(oldDecl) && IsDeclarationLine(newDecl)
    requires FunName.ExtractFunctionName(newDecl) == Some(name)
    ensures var ks := [HunkHeader, Removed(marker), Removed(oldDecl), Added(marker), Added(newDecl), HunkHeader];
            && TestParser.Run(TestParser.State(results, Some(path), false, [], false, 0), ks).results == results
            && LegacyTestParser.Run(LegacyTestParser.State(results, Some(path), false), ks).results
               == results + [NewTestInfo(name, path)]
  {
    var c := TestParser.State(results, Some(path), false, [], false, 0);
    TestParser.ReplacedDeclarationYieldsNothing(c, marker, oldDecl, newDecl);
    LegacyTestParser.ReplacedDeclarationIsReported(LegacyTestParser.State(results, Some(path), false), marker, oldDecl, newDecl, name, path);
  }
}
