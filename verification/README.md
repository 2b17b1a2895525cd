# git-analyzer core, modelled in Dafny

git-analyzer walks the commit history of a Kotlin repository and counts the
JUnit test functions each author added. For every commit it asks git for the
commit's diff, restricted to `*.kt` files. A line-by-line state machine,
`TestParser.findNewTests`, reads that diff and reports the test functions
that are new. `main` then groups the reports by author e-mail for the
console. The current generation (package `com.analyzer`) also builds one
report record per test for the HTML report, which embeds those records as
JSON. The legacy generation (package `analyzer`) is an older, simpler copy
of the same pipeline, and it is modelled too.

The model is pure: immutable datatypes and functions, plus one method with a
loop (the JSON array writer).

| module | file | what it models |
|---|---|---|
| `Wrappers` | wrappers.dfy | `Option` |
| `Text` | text.dfy | the Kotlin `String` operations the code relies on: `trim`, `isBlank`, `startsWith`, `contains`, `split(limit)`, `lines()`, `joinToString` |
| `FunName` | fun_name.dfy | `extractFunctionName`, the first match of the declaration pattern (`fun`, whitespace, a backtick-quoted or `\w+` name, optional whitespace, `(`): a matcher at one position, shown equal to a declarative reading of the pattern, then the leftmost-match search |
| `Markers` | markers.dfy | `testAnnotations`, `isTestAnnotation`, `hasTestAnnotationAndFun`, `containsFunDeclaration` (identical in both parsers) |
| `Diff` | diff.dfy | `NewTestInfo`; the classification of a diff line, with the precedence both parsers use; what it means for a report to be accounted for by the diff |
| `TestParser` | test_parser.dfy | the current `findNewTests`: per-hunk lists of added tests, a count of removed tests, and `flushHunk` |
| `LegacyTestParser` | legacy_test_parser.dfy | the legacy `findNewTests`, which only looks at added lines |
| `Generations` | generations.dfy | where the two parsers agree and where they part |
| `Escaping` | escaping.dfy | `escapeJson` and `escapeHtml`, with decoders that invert them |
| `ReportJson` | report_json.dfy | `TestRecord`, `serializeToJson`, `serializeMapToJson`, with readers that invert them |
| `GitClient` | git_client.dfy | both `GitClient`s: parsing `git log`, `findRootCommits`, `isRootCommit`, and the `diff-tree` arguments |
| `Grouping` | grouping.dfy | `testsByAuthor`, an insertion-ordered map, and the `getOrPut(..).addAll(..)` fold |
| `Analysis` | analysis.dfy | the current `main`, as a fold over the commits |
| `LegacyAnalysis` | legacy_analysis.dfy | the legacy `main`, as a fold over the commits |

How git is modelled. Git's answers are parameters of the model:

- whether the repository is valid;
- the log printed for a `sinceDays` value, as a function;
- the diff printed for a hash, as a function;
- the `rev-list` output, as a string.

The clock-reading `isWithinDays` is a parameter too. Every git output is
taken as already trimmed, as `runGit` returns it.

Where the code and its own comments or tests disagree, the model follows
the code:

- **Cancellation is by count, not by name.** At each hunk or file boundary,
  and at the end of the diff, the current parser keeps the last
  `added - removed` added tests of the hunk (`takeLast`), whatever their
  names. So renaming a test inside a hunk reports nothing
  (`TestParser.ReplacedDeclarationYieldsNothing`), and with one removal and
  two additions only the later addition is reported
  (`TestParser.SurplusIsTakenFromTheEnd`). The KDoc of `findNewTests`
  (`src/main/kotlin/com/analyzer/TestParser.kt` lines 12-19) describes
  matching each added test against a removed test of the same hunk, and
  the tests at `src/test/kotlin/com/analyzer/TestParserTest.kt` lines
  46-65 and 87-108 expect that name-based cancellation. The model follows
  the code.
- **There is no system id.** `NewTestInfo` has only a name and a file, and
  no `@System` annotation is tracked. So `test.systemId`, which
  `src/main/kotlin/com/analyzer/Main.kt` line 51 reads, has nothing to
  read, and every record is built with no system.
- **There is no thread pool.** `THREAD_COUNT`, declared at
  `src/main/kotlin/com/analyzer/AnalyzerConfig.kt` line 25 for parallel
  analysis, is never used. Both `main` loops are sequential.
- **The legacy parser checks for a declaration before an `@` line.** While a
  marker is pending, it tests for a `fun` declaration before it tests for an
  intermediate annotation. So an annotation line such as
  `@DisplayName("Test fun behavior")` clears the marker, and the declaration
  that follows is not reported (`Generations.AtLineWithFunDiverges`). The
  legacy test at `src/test/kotlin/analyzer/TestParserTest.kt` lines 343-359
  expects the test to be found. The model follows the code.

## Model

| member | source | states |
|---|---|---|
| Text.Trim | src/main/kotlin/com/analyzer/TestParser.kt:66 | `trim` leaves no whitespace at either end of its result |
| Text.TrimSlice | src/main/kotlin/com/analyzer/TestParser.kt:66 | `trim` keeps one contiguous slice and drops only whitespace around it |
| Text.TrimIgnoresTrailingCR | src/main/kotlin/com/analyzer/TestParser.kt:66 | a carriage return at the end of a diff line, left there by a CR LF line ending, is gone from the trimmed content |
| Text.BlankIffTrimEmpty | src/main/kotlin/com/analyzer/TestParser.kt:97 | `isBlank` holds exactly when trimming leaves nothing |
| Text.Split | src/main/kotlin/com/analyzer/GitClient.kt:34 | `split(" ", limit)` gives at least one and at most `limit` parts; no part but the last holds the delimiter, and the last holds it only when the limit was reached; there is one part exactly when the delimiter is absent or the limit is 1 |
| Text.SplitJoinsBack | src/main/kotlin/com/analyzer/GitClient.kt:34 | joining the parts of a split with the delimiter gives back the split string |
| Text.SplitJoin | src/main/kotlin/com/analyzer/GitClient.kt:48 | splitting with no limit undoes joining parts that do not contain the delimiter |
| Text.SplitThree | src/main/kotlin/com/analyzer/GitClient.kt:34-35 | a split with limit 3 has three parts exactly when there is a second delimiter after the first |
| Text.Lines | src/main/kotlin/com/analyzer/TestParser.kt:45 | `lines()` gives at least one line, and no line holds a line feed |
| Text.LinesJoinBack | src/main/kotlin/com/analyzer/TestParser.kt:45 | the lines, joined with line feeds, give back the text |
| FunName.MatchAtStartSound | src/main/kotlin/com/analyzer/TestParser.kt:175-178 | whatever the one-position matcher returns is group 1 of a genuine match of the declaration pattern at that position: `fun`, whitespace, a backtick-quoted or word name, optional whitespace, `(` |
| FunName.MatchAtStartComplete | src/main/kotlin/com/analyzer/TestParser.kt:175-178 | every match of the pattern at a position has the group the matcher returns, so backtracking cannot produce a different name |
| FunName.ExtractIsLeftmostMatch | src/main/kotlin/com/analyzer/TestParser.kt:175-178 | `extractFunctionName` returns group 1 of the match at the leftmost position where the pattern matches |
| FunName.ExtractNoneIffNoMatch | src/main/kotlin/com/analyzer/TestParser.kt:175-178 | `extractFunctionName` returns null exactly when the pattern matches at no position |
| FunName.ExtractSomeHasFirstPosition | src/main/kotlin/com/analyzer/TestParser.kt:175-178 | a found name comes from some position, and the matcher fails at every earlier one |
| FunName.ExtractSkipsPrefix | src/test/kotlin/com/analyzer/TestParserTest.kt:345-429 | text before the first `fun` does not change the name, so modifiers such as `internal`, `suspend`, `override` or `open` do not matter |
| FunName.PlainDeclarationName | src/main/kotlin/analyzer/TestParser.kt:117-120 | `fun name(` with a `\w+` name yields exactly that name |
| FunName.QuotedDeclarationName | src/test/kotlin/com/analyzer/TestParserTest.kt:188-204 | a backtick-quoted name is returned with its backticks |
| Markers.AtMostOneMarkerPrefix | src/main/kotlin/com/analyzer/TestParser.kt:10 | no test annotation is a prefix of another, so a line begins with at most one of them |
| Markers.ContinuedMarkerIsNotATest | src/main/kotlin/com/analyzer/TestParser.kt:154-169 | an annotation name continued by a letter, digit or underscore is neither a marker line nor a one-line declaration |
| Markers.LookalikeAnnotations | src/test/kotlin/com/analyzer/TestParserTest.kt:286-344 | `@TestFactory`, `@TestTemplate` and `@TestMethodOrder` lines, whatever follows, never mark a test |
| Markers.MarkersMark | src/main/kotlin/com/analyzer/TestParser.kt:154-160 | each of `@Test`, `@ParameterizedTest` and `@RepeatedTest`, alone or followed by `(`, a space or a tab, is a marker line |
| Markers.OneLineFormIsMarkerWithFun | src/main/kotlin/com/analyzer/TestParser.kt:154-169 | `hasTestAnnotationAndFun` holds exactly when the line is a marker line that also contains ` fun ` |
| Markers.MarkerLineStartsWithAt | src/main/kotlin/com/analyzer/TestParser.kt:154-169 | every marker line and every one-line declaration begins with `@` |
| Markers.NoAtNoMarker | src/main/kotlin/com/analyzer/TestParser.kt:154-169 | a line that does not begin with `@` is neither a marker line nor a one-line declaration |
| Markers.BareMarkerHasNoFun | src/main/kotlin/com/analyzer/TestParser.kt:10 | no annotation name contains ` fun ` |
| Markers.BlankHasNoFun | src/main/kotlin/com/analyzer/TestParser.kt:171-173 | blank content never holds a `fun` declaration |
| Diff.Classify | src/main/kotlin/com/analyzer/TestParser.kt:45-146 | each kind of diff line corresponds to exactly the prefix condition the parser tests first: `+++ b/` gives a file header with the rest as path; `---`, `diff ` and `index ` give metadata; `@@` gives a hunk header; other `+` and `-` lines give added and removed lines with the content trimmed; anything else is context |
| Diff.Kinds | src/main/kotlin/com/analyzer/TestParser.kt:45 | one classified kind per line, in order |
| Diff.DeclaredTest | src/main/kotlin/com/analyzer/TestParser.kt:70-73 | a declaration line yields one test exactly when a name extracts and a file header has been seen, and that test carries the extracted name and the current file |
| Diff.BlankDiffAddsNothing | src/main/kotlin/com/analyzer/Main.kt:39-40 | a blank diff has no added line |
| Diff.AttributionOnLines | src/main/kotlin/com/analyzer/TestParser.kt:47-51 | a report accounted for on line kinds is accounted for on the raw lines: an added line declares its name, and the last `+++ b/` line before it names its file |
| TestParser.TakeLast | src/main/kotlin/com/analyzer/TestParser.kt:37 | `takeLast(n)` keeps `min(n, size)` elements, and they are the end of the list |
| TestParser.FlushHunk | src/main/kotlin/com/analyzer/TestParser.kt:32-43 | a flush appends exactly `max(added - removed, 0)` records, which are the last ones of the hunk's added list in encounter order; earlier results and the current file are kept; the added list, the removed count and both pending flags are cleared |
| TestParser.AddedLine | src/main/kotlin/com/analyzer/TestParser.kt:65-105 | an added line touches only the added side: results, current file, removed flag and removed count stay, and the added list grows by at most the test the line declares |
| TestParser.RemovedLine | src/main/kotlin/com/analyzer/TestParser.kt:108-140 | a removed line touches only the removed side: results, current file, added flag and added list stay, and the removed count grows by at most one |
| TestParser.RunAppend | src/main/kotlin/com/analyzer/TestParser.kt:45-146 | reading a diff in two pieces is reading it whole |
| TestParser.StepKeepsInvariant | src/main/kotlin/com/analyzer/TestParser.kt:45-146 | each line keeps the invariant: the current file is the path of the last file header; every result and every test in the hunk's list is accounted for by an added line; results plus the hunk's list never outnumber the added lines |
| TestParser.InvariantHolds | src/main/kotlin/com/analyzer/TestParser.kt:45-146 | the invariant holds after every prefix of the diff |
| TestParser.Records | src/main/kotlin/com/analyzer/TestParser.kt:149-151 | after the final flush there are no more records than added lines, and every record is accounted for by an added line and the last file header before it |
| TestParser.FindNewTests | src/main/kotlin/com/analyzer/TestParser.kt:20-152 | `findNewTests` reports no more tests than the diff has added lines, and each report's name is declared on an added line and its path is on the last `+++ b/` line before that line |
| TestParser.BoundaryForgetsPending | src/main/kotlin/com/analyzer/TestParser.kt:47-62 | after a hunk or file boundary the pending flags before it make no difference |
| TestParser.ContextMarkerNeverCounts | src/test/kotlin/com/analyzer/TestParserTest.kt:30-46 | an annotation seen only as context never makes the added declaration after it count, whether the declaration follows directly or after the removed old declaration, because context clears both flags and a removed line leaves the added side alone |
| TestParser.AddedPendingRules | src/main/kotlin/com/analyzer/TestParser.kt:83-104 | while a marker is pending on the added side, `@` and blank lines keep it, a `fun` line consumes it and adds its test, and any other line clears it |
| TestParser.RemovedPendingRules | src/main/kotlin/com/analyzer/TestParser.kt:117-138 | while a marker is pending on the removed side, `@` and blank lines keep it, a `fun` line consumes it and counts one removal, and any other line clears it |
| TestParser.MetadataChangesNothing | src/main/kotlin/com/analyzer/TestParser.kt:54-56 | a `---`, `diff ` or `index ` line changes no part of the parser state, pending flags included |
| TestParser.OneLineDeclaration | src/main/kotlin/com/analyzer/TestParser.kt:68-76 | `@Test fun name()` on one line adds its test on the added side and counts one removal on the removed side, and clears that side's flag |
| TestParser.AddedMarkerThenDeclaration | src/main/kotlin/com/analyzer/TestParser.kt:78-95 | an added marker line followed by an added declaration line adds the declared test |
| TestParser.RemovedMarkerThenDeclaration | src/main/kotlin/com/analyzer/TestParser.kt:117-130 | a removed marker line followed by a removed declaration line counts one removal |
| TestParser.ReplacedDeclarationYieldsNothing | src/test/kotlin/com/analyzer/TestParserTest.kt:111-132 | a hunk that removes a marked declaration and adds one back reports nothing, whether or not the name changed |
| TestParser.AddedDeclarationIsReported | src/test/kotlin/com/analyzer/TestParserTest.kt:12-29 | a hunk that only adds a marked declaration reports it, with the current file |
| TestParser.SurplusIsTakenFromTheEnd | src/main/kotlin/com/analyzer/TestParser.kt:34-37 | with one removal and two additions in a hunk, only the later addition is reported |
| LegacyTestParser.AddedLine | src/main/kotlin/analyzer/TestParser.kt:47-90 | an added line leaves the current file, and either keeps the results or appends the test it declares |
| LegacyTestParser.ResultsOnlyGrow | src/main/kotlin/analyzer/TestParser.kt:17-91 | reading further never removes or reorders a result |
| LegacyTestParser.StepKeepsInvariant | src/main/kotlin/analyzer/TestParser.kt:17-91 | each line keeps the invariant: the current file is the path of the last file header; every result is accounted for by an added line; results never outnumber the added lines |
| LegacyTestParser.InvariantHolds | src/main/kotlin/analyzer/TestParser.kt:17-91 | the invariant holds after every prefix of the diff |
| LegacyTestParser.RecordsOfPrefix | src/main/kotlin/analyzer/TestParser.kt:17-93 | the reports for a prefix of a diff are a prefix of the reports for the whole diff |
| LegacyTestParser.FindNewTests | src/main/kotlin/analyzer/TestParser.kt:12-94 | the legacy `findNewTests` reports no more tests than added lines, each declared on an added line in the file of the last `+++ b/` line before it |
| LegacyTestParser.BoundaryForgetsPending | src/main/kotlin/analyzer/TestParser.kt:19-44 | after a file header, a hunk header, a context line or a removed line, the pending flag before it makes no difference |
| LegacyTestParser.PendingRules | src/main/kotlin/analyzer/TestParser.kt:65-90 | while a marker is pending, a `fun` line consumes it and reports its test, even when it starts with `@`; other `@` lines and blank lines keep it; any other line clears it |
| LegacyTestParser.OnlyAddedLinesReport | src/main/kotlin/analyzer/TestParser.kt:19-44 | a line that is not added never changes the results, and every such line except diff metadata clears the pending flag |
| LegacyTestParser.MetadataChangesNothing | src/main/kotlin/analyzer/TestParser.kt:26-28 | a `---`, `diff ` or `index ` line changes nothing, the pending flag included |
| LegacyTestParser.MarkerThenDeclaration | src/main/kotlin/analyzer/TestParser.kt:59-75 | a marker line followed by any `fun` line reports the declared test |
| LegacyTestParser.UnchangedMarkerNeverCounts | src/test/kotlin/analyzer/TestParserTest.kt:30-46 | a marker that is context or removed never makes the added declaration after it count |
| LegacyTestParser.ReplacedDeclarationIsReported | src/main/kotlin/analyzer/TestParser.kt:36-44 | removed lines are not inspected, so a hunk that replaces a marked declaration reports the added one |
| Generations.FlushWithoutRemovals | src/main/kotlin/com/analyzer/TestParser.kt:32-43 | with no removal counted, a flush moves the whole added list to the results |
| Generations.StepCorresponds | src/main/kotlin/analyzer/TestParser.kt:17-91 | on a line that is neither removed nor an added non-marker `@` line with `fun`, both parsers move to corresponding states |
| Generations.RunCorresponds | src/main/kotlin/analyzer/TestParser.kt:17-91 | the correspondence lasts through any run of such lines |
| Generations.SameReportsWithoutRemovals | src/main/kotlin/analyzer/TestParser.kt:12-94 | on a diff of such lines both generations report the same tests, in the same order |
| Generations.AtLineWithFunDiverges | src/main/kotlin/analyzer/TestParser.kt:68-80 | while a marker is pending, an added non-marker `@` line containing ` fun ` is skipped by the current parser but taken as the declaration by the legacy one |
| Generations.ReplacementIsReportedOnlyByLegacy | src/main/kotlin/com/analyzer/TestParser.kt:108-140 | a hunk that replaces a marked declaration is reported by the legacy parser but not by the current one |
| Escaping.EscapeJsonIsPerChar | src/main/kotlin/com/analyzer/HtmlReportGenerator.kt:52-60 | the six chained replacements act character by character: `\` `"` LF CR TAB `/` become two-character escapes and everything else is kept, with no escape escaped twice |
| Escaping.EscapeJsonLength | src/main/kotlin/com/analyzer/HtmlReportGenerator.kt:52-60 | the escaped text is one character longer per escaped character |
| Escaping.EscapeJsonNoRawBreaks | src/main/kotlin/com/analyzer/HtmlReportGenerator.kt:52-60 | the escaped text holds no raw LF, CR or TAB |
| Escaping.EscapeJsonNoClosingTag | src/main/kotlin/com/analyzer/HtmlReportGenerator.kt:52-60 | the escaped text never contains `</`, so it cannot close the `<script>` element it is embedded in |
| Escaping.EscapeJsonRoundTrip | src/main/kotlin/com/analyzer/HtmlReportGenerator.kt:52-60 | a JSON string reader reading the escaped text and a closing quote gets back the original value and the rest of the input |
| Escaping.EscapeJsonValidIff | src/main/kotlin/com/analyzer/HtmlReportGenerator.kt:52-60 | the escaped text is a valid JSON string body exactly when the value has no control character other than LF, CR and TAB |
| Escaping.EscapeHtmlIsPerChar | src/main/kotlin/com/analyzer/HtmlReportGenerator.kt:203-209 | the four chained replacements act character by character: `&` `<` `>` `"` become entities and everything else is kept |
| Escaping.EscapeHtmlIsSafe | src/main/kotlin/com/analyzer/HtmlReportGenerator.kt:203-209 | the escaped text holds no `<`, `>` or `"`, and every `&` in it begins one of the four entities |
| Escaping.EscapeHtmlRoundTrip | src/main/kotlin/com/analyzer/HtmlReportGenerator.kt:203-209 | decoding the four entities gives back the original text |
| ReportJson.WriteArray | src/main/kotlin/com/analyzer/HtmlReportGenerator.kt:23-40 | the `StringBuilder` loop writes `[`, a line break, the objects separated by `,` and a line break, a final line break and `]` |
| ReportJson.SerializeToJson | src/main/kotlin/com/analyzer/HtmlReportGenerator.kt:21-42 | `serializeToJson` writes `[]` for no records and otherwise the array of the records' objects |
| ReportJson.ReadRecordOf | src/main/kotlin/com/analyzer/HtmlReportGenerator.kt:26-36 | one record's object, with the keys author, test, file, date and system, reads back as that record |
| ReportJson.ReadSystemOf | src/main/kotlin/com/analyzer/HtmlReportGenerator.kt:31-35 | `"system":null` reads back as no system, and a quoted id reads back as that id |
| ReportJson.SystemFieldShape | src/main/kotlin/com/analyzer/HtmlReportGenerator.kt:31-35 | the system field is the bare literal `null` exactly when the record has no system, and otherwise the id, escaped and in quotes |
| ReportJson.RecordsJsonRoundTrip | src/main/kotlin/com/analyzer/HtmlReportGenerator.kt:21-42 | reading back what `serializeToJson` writes gives the records, in order |
| ReportJson.Pairs | src/main/kotlin/com/analyzer/HtmlReportGenerator.kt:46-48 | one `"key":"value"` pair per entry, both escaped, in order |
| ReportJson.MapJsonRoundTrip | src/main/kotlin/com/analyzer/HtmlReportGenerator.kt:44-50 | reading back what `serializeMapToJson` writes gives the entries, in order |
| ReportJson.EmptyMapIsGeneralCase | src/main/kotlin/com/analyzer/HtmlReportGenerator.kt:45 | the `{}` shortcut for an empty map is what the general case would write anyway |
| GitClient.ParseLogLine | src/main/kotlin/com/analyzer/GitClient.kt:34-37 | a line gives a commit exactly when it holds two spaces; the commit's fields joined with spaces give back the line; hash and author hold no space |
| GitClient.LogLineRoundTrip | src/main/kotlin/com/analyzer/GitClient.kt:33-37 | the line `--format=%H %aE %aI` prints for a commit parses back to that commit, whatever spaces the date holds |
| GitClient.ParseLines | src/main/kotlin/com/analyzer/GitClient.kt:33-38 | `mapNotNull` gives at most one commit per line, each parsed from one of the lines |
| GitClient.ParseLinesSingle | src/main/kotlin/com/analyzer/GitClient.kt:33-38 | a single line gives its commit when it parses, and nothing otherwise; with `ParseLinesAppend` this fixes the whole result |
| GitClient.ParseLinesAppend | src/main/kotlin/com/analyzer/GitClient.kt:33 | `mapNotNull` keeps line order: the commits of two runs of lines are those of the first followed by those of the second |
| GitClient.ParseCommits | src/main/kotlin/com/analyzer/GitClient.kt:31-38 | blank output gives no commit, and there are never more commits than lines |
| GitClient.ParseLinesOfLogLines | src/main/kotlin/com/analyzer/GitClient.kt:33-38 | lines that each parse give their commits, in line order |
| GitClient.ParseCommitsOfLog | src/main/kotlin/com/analyzer/GitClient.kt:22-39 | parsing the log git prints for a list of commits gives back exactly that list, in git's order |
| GitClient.RootCommits | src/main/kotlin/com/analyzer/GitClient.kt:45-52 | `findRootCommits` is the set of the trimmed non-blank lines, or the empty set when git fails |
| GitClient.RootCommitsAreHashes | src/main/kotlin/com/analyzer/GitClient.kt:48 | every root found is non-blank, already trimmed, and lies on one line |
| GitClient.RootCommitsOfList | src/main/kotlin/com/analyzer/GitClient.kt:45-52 | for hashes printed one per line, the roots found are exactly those hashes |
| GitClient.IsRootCommit | src/main/kotlin/com/analyzer/GitClient.kt:73-76 | a commit is a root exactly when the trimmed `rev-list --parents -1` output holds no space |
| GitClient.RootIffNoParents | src/main/kotlin/analyzer/GitClient.kt:50-53 | a hash listed alone is a root, and a hash listed with parent hashes is not |
| GitClient.DiffTreeArgs | src/main/kotlin/com/analyzer/GitClient.kt:59-65 | `--root` comes right after `diff-tree` exactly for a root commit, followed by `-M -U999999 -p <hash> -- *.kt` |
| GitClient.DiffArgsFor | src/main/kotlin/com/analyzer/GitClient.kt:68-71 | the one-argument `getDiffForCommit` passes `--root` exactly when `rev-list` listed no parent |
| GitClient.LegacyDiffTreeArgs | src/main/kotlin/analyzer/GitClient.kt:43-47 | the legacy `--root` comes right after `diff-tree` exactly for a root commit, followed by `-p <hash> -- *.kt` |
| GitClient.LegacyDiffArgsFor | src/main/kotlin/analyzer/GitClient.kt:41-48 | the legacy `getDiffForCommit` passes `--root` exactly when `rev-list` listed no parent |
| GitClient.LegacyArgsDropRenamesAndContext | src/main/kotlin/analyzer/GitClient.kt:41-48 | the legacy arguments are the current ones without `-M` and `-U999999` |
| Grouping.AddAll | src/main/kotlin/com/analyzer/Main.kt:62-65 | `getOrPut(..).addAll(..)` appends to the key's list; a new key goes after all existing keys; every other list is unchanged; the list sizes grow by the number added |
| Grouping.AddAllKeepsWellFormed | src/main/kotlin/com/analyzer/Main.kt:62-65 | adding a non-empty list keeps the keys distinct and every list non-empty |
| Grouping.KeyIffTests | src/main/kotlin/com/analyzer/Main.kt:62-65 | in such a map an author is a key exactly when their list is non-empty |
| Grouping.GroupByMeaning | src/main/kotlin/com/analyzer/Main.kt:34-67 | the fold gives each author the tests of their included commits, in commit order then parser order; the keys are distinct; the list sizes add up to the number of included tests |
| Grouping.GroupByKeys | src/main/kotlin/com/analyzer/Main.kt:34-67 | an author is a key exactly when some included commit of theirs has tests |
| Grouping.GroupByCongruence | src/main/kotlin/analyzer/Main.kt:26-39 | the fold depends only on each commit's tests and on whether it is included |
| Analysis.RecordsOf | src/main/kotlin/com/analyzer/Main.kt:44-54 | one record per test, in order, with the commit's author and date, the test's name and file, and no system |
| Analysis.BlankDiffContributesNothing | src/main/kotlin/com/analyzer/Main.kt:39-40 | skipping a blank diff loses nothing: the parser finds no test in it, and the commit leaves both collections as they were |
| Analysis.ConsoleMapByAuthor | src/main/kotlin/com/analyzer/Main.kt:34-67 | `testsByAuthor` gives each author the tests of their commits that pass the console filter, in order; an author is a key exactly when that list is non-empty; the keys are distinct |
| Analysis.LoopRecords | src/main/kotlin/com/analyzer/Main.kt:34-67 | `allTestRecords` holds one record per test of every commit, in commit order then parser order, whatever the console filter says |
| Analysis.RecordCount | src/main/kotlin/com/analyzer/Main.kt:42-54 | there is one record per test found |
| Analysis.ConsoleTotalIsRecordCount | src/main/kotlin/com/analyzer/Main.kt:56-60 | with no date filter (no `days`, or no HTML report), the console list sizes add up to the record count |
| Analysis.SinceDays | src/main/kotlin/com/analyzer/Main.kt:18-22 | git is asked for a period exactly when `days` is set and no HTML report is made, and then for `days` |
| Analysis.Analyze | src/main/kotlin/com/analyzer/Main.kt:13-67 | an invalid repository stops the run; a query with no commits stops it; otherwise the report holds one record per test of every listed commit, in commit order, and the console map gives each author exactly that author's tests from the commits the filter lets through, with distinct keys and no empty list |
| Analysis.InvalidStopsEarly | src/main/kotlin/com/analyzer/Main.kt:13-16 | on an invalid repository the outcome does not depend on anything git would print |
| LegacyAnalysis.BlankDiffContributesNothing | src/main/kotlin/analyzer/Main.kt:31-32 | skipping a blank diff loses nothing: the legacy parser finds no test in it, and the map stays as it was |
| LegacyAnalysis.ConsoleMapByAuthor | src/main/kotlin/analyzer/Main.kt:26-39 | each author's list is the tests of their commits, in order; an author is a key exactly when that list is non-empty; the keys are distinct; the list sizes add up to the number of tests found |
| LegacyAnalysis.Analyze | src/main/kotlin/analyzer/Main.kt:11-39 | an invalid repository stops the run; a period with no commits stops it; otherwise the map gives each author exactly that author's tests from the listed commits, in commit order, with distinct keys, no empty list, and sizes adding up to every test found |
| LegacyAnalysis.InvalidStopsEarly | src/main/kotlin/analyzer/Main.kt:11-14 | on an invalid repository the outcome does not depend on anything git would print |
| LegacyAnalysis.SameConsoleMap | src/main/kotlin/analyzer/Main.kt:26-39 | on commits whose diffs remove nothing and have no non-marker `@` line with `fun`, and with no date filter, both generations print the same per-author map |

## Left out

- Running git (`runGit`, `validateRepo`) is left out. It is a process call: its outputs are parameters of the model, taken as already trimmed as `runGit` returns them.
- The arguments `getCommits` passes to `git log` (`--no-merges`, `--since=<n> days ago`) are left out. They only shape a query to git. The model starts from the output git prints.
- `isWithinDays` reads the clock and parses an ISO date, so it is a parameter.
- `buildHtml` and writing the report file are left out. The HTML/CSS/JavaScript template and file output are presentation and I/O. The data they embed is modelled.
- `ReportPrinter` and `AnalyzerConfig` are left out. They print the map and hold constants, and both are outside the core.
- Progress printing in both `main` loops is left out. It is console output only.
- Text.Lines: splits at LF only, while Kotlin's `lines()` also splits at CR LF and at a lone CR. A file committed with CR LF endings does reach the parsers as `+line\r` lines, since `git diff-tree -p` prints the blob content as committed. The CR left at the end of such a line is harmless: the parsers classify a line by its first characters and read its content only through `trim`, which drops it (`Text.TrimIgnoresTrailingCR`). Git writes the `+++ b/`, `@@` and log lines itself, ending them with LF. What really differs is a lone CR inside a line, which Kotlin treats as a line break and the model does not.
- Text.IsWhitespace: covers the ASCII range only. Kotlin's `trim` and `isBlank` also drop Unicode space separators, and the model has no Unicode.
- JSON `\u` escapes: the validity in `Escaping.EscapeJsonValidIff` treats `\u` escapes as the only other escapes. `escapeJson` itself neither produces nor handles `\u`, so control characters other than LF, CR and TAB pass through raw, as the lemma states.
- `TestRecord.systemId`: the source reads `test.systemId`, but `NewTestInfo` has no such field. The model records no system for every test.
- Parallel analysis: `THREAD_COUNT` (src/main/kotlin/com/analyzer/AnalyzerConfig.kt:25) is declared but never used, so no thread pool exists to model. Both loops are sequential and modelled as folds.
- TestParser.AddedLine: its own contract is a frame ("nothing else changes"). The line-by-line rules are stated in `TestParser.AddedPendingRules`, `TestParser.OneLineDeclaration` and `TestParser.AddedMarkerThenDeclaration`.
- TestParser.RemovedLine: its own contract is a frame. The rules are stated in `TestParser.OneLineDeclaration` and `TestParser.RemovedMarkerThenDeclaration`.
