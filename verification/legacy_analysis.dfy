/**
 * `main` of the legacy analyzer (package `analyzer`): validate the
 * repository, list the commits of the period, then one pass over them that
 * groups the tests the legacy parser finds by author.  There are no report
 * records and no console filter.
 */
module LegacyAnalysis {
  import opened Wrappers
  import opened Text
  import opened Diff
  import opened GitClient
  import opened Grouping
  import LegacyTestParser
  import Analysis
  import Generations

  /** One iteration of the loop over the commits, given the commit's diff. */
  function Step(m: AuthorMap, c: CommitInfo, diff: string): AuthorMap {
    if IsBlank(diff) then m
    else
      var tests := LegacyTestParser.FindNewTests(diff);
      if |tests| == 0 then m else AddAll(m, c.authorEmail, tests)
  }

  /** The loop over `commits`, in order, from an empty map. */
  function Loop(commits: seq<CommitInfo>, diffOf: string -> string): AuthorMap
    decreases |commits|
  {
    if |commits| == 0 then []
    else
      var c := commits[|commits| - 1];
      Step(Loop(commits[..|commits| - 1], diffOf), c, diffOf(c.hash))
  }

  /** The tests the loop takes from a diff: none from a blank one, else the legacy parser's. */
  function TestsOf(diff: string): seq<NewTestInfo> {
    if IsBlank(diff) then [] else LegacyTestParser.FindNewTests(diff)
  }

  /** The tests of each commit, given git's diffs. */
  function TestsFn(diffOf: string -> string): CommitInfo -> seq<NewTestInfo> {
    (c: CommitInfo) => TestsOf(diffOf(c.hash))
  }

  /** Skipping a blank diff loses nothing: the legacy parser finds no test in it anyway. */
  lemma BlankDiffContributesNothing(m: AuthorMap, c: CommitInfo, diff: string)
    requires IsBlank(diff)
    ensures LegacyTestParser.FindNewTests(diff) == []
    ensures Step(m, c, diff) == m
  {
    BlankDiffAddsNothing(diff);
  }

  /** The loop is the group-by of every commit's tests. */
  lemma {:induction false} LoopGroups(commits: seq<CommitInfo>, diffOf: string -> string)
    ensures Loop(commits, diffOf) == GroupBy(commits, TestsFn(diffOf), Analysis.KeepAll)
    decreases |commits|
  {
    if |commits| > 0 {
      LoopGroups(commits[..|commits| - 1], diffOf);
    }
  }

  /**
   * `testsByAuthor`: each author's list is the tests of that author's
   * commits, in commit order then parser order; an author is a key exactly
   * when that list is non-empty; keys are distinct; and the list sizes add
   * up to the number of tests found in all non-blank diffs.
   */
  lemma ConsoleMapByAuthor(commits: seq<CommitInfo>, diffOf: string -> string, a: string)
    ensures var m := Loop(commits, diffOf);
            && WellFormed(m)
            && Lookup(m, a) == AuthorTests(commits, TestsFn(diffOf), Analysis.KeepAll, a)
            && (a in Keys(m) <==> Lookup(m, a) != [])
            && Total(m) == IncludedCount(commits, TestsFn(diffOf), Analysis.KeepAll)
  {
    LoopGroups(commits, diffOf);
    GroupByMeaning(commits, TestsFn(diffOf), Analysis.KeepAll);
    GroupByKeys(commits, TestsFn(diffOf), Analysis.KeepAll, a);
  }

  /** How a run ends. */
  datatype Outcome =
    | InvalidRepository
    | NoCommits
    | Analysed(commits: seq<CommitInfo>, byAuthor: AuthorMap)

  /**
   * `main` up to the console report: stop on an invalid repository, stop
   * when git lists no commit for the period, else analyse the listed
   * commits.  The map then holds each author's tests, in commit order, with
   * distinct keys and no empty list, and its lists add up to every test
   * found.
   */
  function Analyze(valid: bool, days: Option<int>, logOf: Option<int> -> string,
                   diffOf: string -> string): (o: Outcome)
    ensures o.InvalidRepository? <==> !valid
    ensures o.NoCommits? <==> valid && ParseCommits(logOf(days)) == []
    ensures o.Analysed? ==> o.commits == ParseCommits(logOf(days)) && |o.commits| > 0
    ensures o.Analysed? ==> WellFormed(o.byAuthor)
    ensures o.Analysed? ==> forall a :: Lookup(o.byAuthor, a) == AuthorTests(o.commits, TestsFn(diffOf), Analysis.KeepAll, a)
    ensures o.Analysed? ==> Total(o.byAuthor) == IncludedCount(o.commits, TestsFn(diffOf), Analysis.KeepAll)
  {
    if !valid then InvalidRepository
    else
      var commits := ParseCommits(logOf(days));
      if |commits| == 0 then NoCommits
      else
        LoopGroups(commits, diffOf);
        GroupByMeaning(commits, TestsFn(diffOf), Analysis.KeepAll);
        Analysed(commits, Loop(commits, diffOf))
  }

  /** An invalid repository stops the run before git is asked for anything else. */
  lemma InvalidStopsEarly(days: Option<int>, log1: Option<int> -> string, log2: Option<int> -> string,
                          diff1: string -> string, diff2: string -> string)
    ensures Analyze(false, days, log1, diff1) == Analyze(false, days, log2, diff2)
  {
  }

  /** A diff whose every line both parsers read alike. */
  predicate ComparableDiff(diff: string) {
    forall k | k in Kinds(Lines(diff)) :: Generations.Comparable(k)
  }

  /**
   * Over commits whose diffs remove nothing (and have no `@` line with the
   * `fun` keyword other than a marker line), and without the console date
   * filter, both generations print the same per-author map.
   */
  lemma SameConsoleMap(commits: seq<CommitInfo>, diffOf: string -> string, days: Option<int>, html: bool,
                       within: (string, int) -> bool)
    requires forall i :: 0 <= i < |commits| ==> ComparableDiff(diffOf(commits[i].hash))
    requires days.None? || !html
    ensures Analysis.Loop(commits, diffOf, days, html, within).byAuthor == Loop(commits, diffOf)
  {
    Analysis.LoopGroups(commits, diffOf, days, html, within);
    LoopGroups(commits, diffOf);
    forall i | 0 <= i < |commits|
      ensures Analysis.TestsFn(diffOf)(commits[i]) == TestsFn(diffOf)(commits[i])
    {
      Generations.SameReportsWithoutRemovals(diffOf(commits[i].hash));
    }
    GroupByCongruence(commits, Analysis.TestsFn(diffOf), TestsFn(diffOf),
                      Analysis.KeepFn(days, html, within), Analysis.KeepAll);
  }
}
