/**
 * `main` of the current analyzer (package `com.analyzer`): validate the
 * repository, list the commits, then one sequential pass over them that
 * builds the report records (`allTestRecords`) and the per-author console
 * map (`testsByAuthor`).  Git's answers come in as functions of the
 * question asked: whether the repository is valid, the log printed for a
 * `sinceDays` argument, and the diff printed for a commit hash.
 * `isWithinDays`, which reads the clock, is a parameter too.
 */
module Analysis {
  import opened Wrappers
  import opened Text
  import opened Diff
  import opened GitClient
  import opened Grouping
  import opened ReportJson
  import TestParser

  /** What the loop builds: the console map and the report records. */
  datatype Report = Report(byAuthor: AuthorMap, records: seq<TestRecord>)

  /**
   * One `TestRecord` per test, carrying the commit's author and date.  The
   * parser's `NewTestInfo` has no system id, so none is recorded.
   */
  function RecordsOf(c: CommitInfo, tests: seq<NewTestInfo>): (rs: seq<TestRecord>)
    ensures |rs| == |tests|
    ensures forall i :: 0 <= i < |tests| ==>
              rs[i] == TestRecord(c.authorEmail, tests[i].functionName, tests[i].filePath, c.date, None)
  {
    if |tests| == 0 then []
    else [TestRecord(c.authorEmail, tests[0].functionName, tests[0].filePath, c.date, None)] + RecordsOf(c, tests[1..])
  }

  /**
   * `includeInConsole`: the date filter applies only when `days` is set and
   * the HTML report is on; otherwise every commit is shown on the console.
   */
  predicate Included(days: Option<int>, html: bool, within: (string, int) -> bool, date: string) {
    if days.Some? && html then within(date, days.value) else true
  }

  /** One iteration of the loop over the commits, given the commit's diff. */
  function Step(r: Report, c: CommitInfo, diff: string, days: Option<int>, html: bool,
                within: (string, int) -> bool): Report
  {
    if IsBlank(diff) then r
    else
      var tests := TestParser.FindNewTests(diff);
      if |tests| == 0 then r
      else
        var byAuthor := if Included(days, html, within, c.date) then AddAll(r.byAuthor, c.authorEmail, tests) else r.byAuthor;
        Report(byAuthor, r.records + RecordsOf(c, tests))
  }

  /** The loop over `commits`, in order, from empty collections. */
  function Loop(commits: seq<CommitInfo>, diffOf: string -> string, days: Option<int>, html: bool,
                within: (string, int) -> bool): Report
    decreases |commits|
  {
    if |commits| == 0 then Report([], [])
    else
      var c := commits[|commits| - 1];
      Step(Loop(commits[..|commits| - 1], diffOf, days, html, within), c, diffOf(c.hash), days, html, within)
  }

  /** The tests the loop takes from a diff: none from a blank one, else the parser's. */
  function TestsOf(diff: string): seq<NewTestInfo> {
    if IsBlank(diff) then [] else TestParser.FindNewTests(diff)
  }

  /** The tests of each commit, given git's diffs. */
  function TestsFn(diffOf: string -> string): CommitInfo -> seq<NewTestInfo> {
    (c: CommitInfo) => TestsOf(diffOf(c.hash))
  }

  /** Whether each commit's tests reach the console map. */
  function KeepFn(days: Option<int>, html: bool, within: (string, int) -> bool): CommitInfo -> bool {
    (c: CommitInfo) => Included(days, html, within, c.date)
  }

  /** Every commit's tests reach the console map. */
  function KeepAll(c: CommitInfo): bool {
    true
  }

  /**
   * Skipping a blank diff loses nothing: the parser finds no test in it
   * anyway, and the commit leaves both collections as they were.
   */
  lemma BlankDiffContributesNothing(r: Report, c: CommitInfo, diff: string, days: Option<int>, html: bool,
                                    within: (string, int) -> bool)
    requires IsBlank(diff)
    ensures TestParser.FindNewTests(diff) == []
    ensures Step(r, c, diff, days, html, within) == r
  {
    BlankDiffAddsNothing(diff);
  }

  /** The console map of the loop is the group-by of the included commits' tests. */
  lemma {:induction false} LoopGroups(commits: seq<CommitInfo>, diffOf: string -> string, days: Option<int>,
                                      html: bool, within: (string, int) -> bool)
    ensures Loop(commits, diffOf, days, html, within).byAuthor == GroupBy(commits, TestsFn(diffOf), KeepFn(days, html, within))
    decreases |commits|
  {
    if |commits| > 0 {
      LoopGroups(commits[..|commits| - 1], diffOf, days, html, within);
    }
  }

  /**
   * `testsByAuthor`: each author's list is the tests of that author's
   * included commits, in commit order then parser order; an author is a key
   * exactly when that list is non-empty; keys are distinct.
   */
  lemma ConsoleMapByAuthor(commits: seq<CommitInfo>, diffOf: string -> string, days: Option<int>,
                           html: bool, within: (string, int) -> bool, a: string)
    ensures var m := Loop(commits, diffOf, days, html, within).byAuthor;
            && WellFormed(m)
            && Lookup(m, a) == AuthorTests(commits, TestsFn(diffOf), KeepFn(days, html, within), a)
            && (a in Keys(m) <==> Lookup(m, a) != [])
  {
    LoopGroups(commits, diffOf, days, html, within);
    GroupByMeaning(commits, TestsFn(diffOf), KeepFn(days, html, within));
    GroupByKeys(commits, TestsFn(diffOf), KeepFn(days, html, within), a);
  }

  /** The records each commit contributes, given git's diffs. */
  function RecordsFn(diffOf: string -> string): CommitInfo -> seq<TestRecord> {
    (c: CommitInfo) => RecordsOf(c, TestsOf(diffOf(c.hash)))
  }

  /** The contributions of the commits, from the first commit on. */
  function Flatten(commits: seq<CommitInfo>, f: CommitInfo -> seq<TestRecord>): seq<TestRecord>
    decreases |commits|
  {
    if |commits| == 0 then [] else f(commits[0]) + Flatten(commits[1..], f)
  }

  /** `Flatten`, read from the other end. */
  lemma {:induction false} FlattenSnoc(commits: seq<CommitInfo>, c: CommitInfo, f: CommitInfo -> seq<TestRecord>)
    ensures Flatten(commits + [c], f) == Flatten(commits, f) + f(c)
    decreases |commits|
  {
    if |commits| == 0 {
      assert commits + [c] == [c];
    } else {
      assert (commits + [c])[1..] == commits[1..] + [c];
      FlattenSnoc(commits[1..], c, f);
    }
  }

  /** A non-empty sequence is its front with its last element put back. */
  lemma SnocOfLast<T>(s: seq<T>)
    requires |s| > 0
    ensures s[..|s| - 1] + [s[|s| - 1]] == s
  {
  }

  /** Reference: the records of the commits, commit by commit from the first. */
  function AllRecords(commits: seq<CommitInfo>, diffOf: string -> string): seq<TestRecord> {
    Flatten(commits, RecordsFn(diffOf))
  }

  /** One commit appends its tests' records, whatever the console filter says. */
  lemma StepRecords(r: Report, c: CommitInfo, diff: string, days: Option<int>, html: bool,
                    within: (string, int) -> bool)
    ensures Step(r, c, diff, days, html, within).records == r.records + RecordsOf(c, TestsOf(diff))
  {
  }

  /**
   * `allTestRecords`: one record per test of every commit, with the
   * commit's author and date, in commit order then parser order, whatever
   * the console filter says.
   */
  lemma {:induction false} LoopRecords(commits: seq<CommitInfo>, diffOf: string -> string, days: Option<int>,
                                       html: bool, within: (string, int) -> bool)
    ensures Loop(commits, diffOf, days, html, within).records == AllRecords(commits, diffOf)
    decreases |commits|
  {
    if |commits| > 0 {
      var pre, c := commits[..|commits| - 1], commits[|commits| - 1];
      var prev := Loop(pre, diffOf, days, html, within);
      LoopRecords(pre, diffOf, days, html, within);
      assert Loop(commits, diffOf, days, html, within) == Step(prev, c, diffOf(c.hash), days, html, within);
      StepRecords(prev, c, diffOf(c.hash), days, html, within);
      assert RecordsFn(diffOf)(c) == RecordsOf(c, TestsOf(diffOf(c.hash)));
      assert AllRecords(commits, diffOf) == AllRecords(pre, diffOf) + RecordsFn(diffOf)(c) by {
        SnocOfLast(commits);
        FlattenSnoc(pre, c, RecordsFn(diffOf));
      }
    }
  }

  /** There is one record per test found. */
  lemma {:induction false} RecordCount(commits: seq<CommitInfo>, diffOf: string -> string, days: Option<int>,
                                       html: bool, within: (string, int) -> bool)
    ensures |Loop(commits, diffOf, days, html, within).records| == IncludedCount(commits, TestsFn(diffOf), KeepAll)
    decreases |commits|
  {
    if |commits| > 0 {
      RecordCount(commits[..|commits| - 1], diffOf, days, html, within);
    }
  }

  /**
   * Without the date filter (no `days`, or no HTML report) every test also
   * lands in the console map: the list sizes add up to the record count.
   */
  lemma ConsoleTotalIsRecordCount(commits: seq<CommitInfo>, diffOf: string -> string, days: Option<int>,
                                  html: bool, within: (string, int) -> bool)
    requires days.None? || !html
    ensures Total(Loop(commits, diffOf, days, html, within).byAuthor) == |Loop(commits, diffOf, days, html, within).records|
  {
    LoopGroups(commits, diffOf, days, html, within);
    GroupByCongruence(commits, TestsFn(diffOf), TestsFn(diffOf), KeepFn(days, html, within), KeepAll);
    GroupByMeaning(commits, TestsFn(diffOf), KeepAll);
    RecordCount(commits, diffOf, days, html, within);
  }

  /** How a run ends. */
  datatype Outcome =
    | InvalidRepository
    | NoCommits
    | Analysed(commits: seq<CommitInfo>, report: Report)

  /** The `sinceDays` argument of `getCommits`: the HTML report always takes the whole history. */
  function SinceDays(days: Option<int>, html: bool): (since: Option<int>)
    ensures since.Some? <==> days.Some? && !html
    ensures since.Some? ==> since == days
  {
    if html then None else days
  }

  /**
   * `main` up to the report: stop on an invalid repository, stop when git
   * lists no commit for the query, else analyse the listed commits.  The
   * report then holds one record per test of every commit, in commit order,
   * and the console map holds each author's tests from the commits the
   * console filter lets through, with distinct keys and no empty list.
   */
  function Analyze(valid: bool, days: Option<int>, html: bool, logOf: Option<int> -> string,
                   diffOf: string -> string, within: (string, int) -> bool): (o: Outcome)
    ensures o.InvalidRepository? <==> !valid
    ensures o.NoCommits? <==> valid && ParseCommits(logOf(SinceDays(days, html))) == []
    ensures o.Analysed? ==> o.commits == ParseCommits(logOf(SinceDays(days, html))) && |o.commits| > 0
    ensures o.Analysed? ==> o.report.records == AllRecords(o.commits, diffOf)
    ensures o.Analysed? ==> WellFormed(o.report.byAuthor)
    ensures o.Analysed? ==> forall a :: Lookup(o.report.byAuthor, a) == AuthorTests(o.commits, TestsFn(diffOf), KeepFn(days, html, within), a)
  {
    if !valid then InvalidRepository
    else
      var commits := ParseCommits(logOf(SinceDays(days, html)));
      if |commits| == 0 then NoCommits
      else
        LoopRecords(commits, diffOf, days, html, within);
        LoopGroups(commits, diffOf, days, html, within);
        GroupByMeaning(commits, TestsFn(diffOf), KeepFn(days, html, within));
        Analysed(commits, Loop(commits, diffOf, days, html, within))
  }

  /** An invalid repository stops the run before git is asked for anything else. */
  lemma InvalidStopsEarly(days: Option<int>, html: bool, log1: Option<int> -> string, log2: Option<int> -> string,
                          diff1: string -> string, diff2: string -> string, within: (string, int) -> bool)
    ensures Analyze(false, days, html, log1, diff1, within) == Analyze(false, days, html, log2, diff2, within)
  {
  }
}
