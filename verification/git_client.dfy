/**
 * The parts of `GitClient` that interpret git's output or choose git's
 * arguments, in both generations.  Running git is left out: each function
 * takes the (already trimmed) text git printed.
 */
module GitClient {
  import opened Wrappers
  import opened Text

  /** `CommitInfo`: one line of `git log --format=%H %aE %aI`. */
  datatype CommitInfo = CommitInfo(hash: string, authorEmail: string, date: string)

  /** The line `git log --format=%H %aE %aI` prints for a commit. */
  function LogLine(c: CommitInfo): string {
    c.hash + " " + c.authorEmail + " " + c.date
  }

  /**
   * `line.split(" ", limit = 3)` and the size check: a line with at least
   * two spaces gives hash, author and date, the date keeping any further
   * spaces; any other line gives nothing.
   */
  function ParseLogLine(line: string): (r: Option<CommitInfo>)
    ensures r.Some? <==> ' ' in line && ' ' in line[IndexOf(line, ' ') + 1..]
    ensures r.Some? ==> LogLine(r.value) == line && ' ' !in r.value.hash && ' ' !in r.value.authorEmail
  {
    var parts := Split(line, ' ', 3);
    SplitThree(line, ' ');
    SplitJoinsBack(line, ' ', 3);
    if |parts| == 3 then
      assert parts == [parts[0], parts[1], parts[2]];
      JoinThree(parts[0], parts[1], parts[2], " ");
      Some(CommitInfo(parts[0], parts[1], parts[2]))
    else None
  }

  /** A commit whose log line parses back to it: no space in the hash or the author. */
  predicate SpaceFreeKey(c: CommitInfo) {
    ' ' !in c.hash && ' ' !in c.authorEmail
  }

  /** Parsing a log line recovers the commit, whatever spaces its date holds. */
  lemma LogLineRoundTrip(c: CommitInfo)
    requires SpaceFreeKey(c)
    ensures ParseLogLine(LogLine(c)) == Some(c)
  {
    LogLineSplits(c);
    var parts := Split(LogLine(c), ' ', 3);
    assert parts[0] == c.hash && parts[1] == c.authorEmail && parts[2] == c.date;
  }

  /** The log line of such a commit splits into its three fields. */
  lemma LogLineSplits(c: CommitInfo)
    requires SpaceFreeKey(c)
    ensures Split(LogLine(c), ' ', 3) == [c.hash, c.authorEmail, c.date]
  {
    var rest := c.authorEmail + [' '] + c.date;
    assert LogLine(c) == c.hash + [' '] + rest;
    SplitFirst(c.hash, ' ', rest, 3);
    SplitFirst(c.authorEmail, ' ', c.date, 2);
  }

  /** `lines.mapNotNull { parse }`: the commits of the lines that parse, in line order. */
  function ParseLines(lines: seq<string>): (cs: seq<CommitInfo>)
    ensures |cs| <= |lines|
    ensures forall c :: c in cs ==> exists i :: 0 <= i < |lines| && ParseLogLine(lines[i]) == Some(c)
  {
    if |lines| == 0 then []
    else
      var rest := ParseLines(lines[1..]);
      assert forall c :: c in rest ==> exists i :: 1 <= i < |lines| && ParseLogLine(lines[i]) == Some(c) by {
        forall c | c in rest
          ensures exists i :: 1 <= i < |lines| && ParseLogLine(lines[i]) == Some(c)
        {
          var j :| 0 <= j < |lines[1..]| && ParseLogLine(lines[1..][j]) == Some(c);
          assert lines[1..][j] == lines[j + 1];
        }
      }
      match ParseLogLine(lines[0])
      case Some(c) => [c] + rest
      case None => rest
  }

  /** One line gives its commit when it parses and nothing otherwise. */
  lemma ParseLinesSingle(line: string)
    ensures ParseLines([line]) == if ParseLogLine(line).Some? then [ParseLogLine(line).value] else []
  {
    assert [line][1..] == [];
  }

  /**
   * `mapNotNull` works line by line and keeps line order: the commits of two
   * runs of lines are those of the first run followed by those of the second.
   */
  lemma {:induction false} ParseLinesAppend(a: seq<string>, b: seq<string>)
    ensures ParseLines(a + b) == ParseLines(a) + ParseLines(b)
    decreases |a|
  {
    if |a| == 0 {
      assert a + b == b;
    } else {
      assert (a + b)[1..] == a[1..] + b;
      assert (a + b)[0] == a[0];
      ParseLinesAppend(a[1..], b);
    }
  }

  /** `getCommits`' parsing: nothing for blank output, else one commit per parsing line. */
  function ParseCommits(output: string): (cs: seq<CommitInfo>)
    ensures IsBlank(output) ==> cs == []
    ensures |cs| <= |Lines(output)|
  {
    if IsBlank(output) then [] else ParseLines(Lines(output))
  }

  /** The log lines of `commits`, in order. */
  function LogLines(commits: seq<CommitInfo>): (ls: seq<string>)
    ensures |ls| == |commits|
    ensures forall i :: 0 <= i < |commits| ==> ls[i] == LogLine(commits[i])
  {
    if |commits| == 0 then [] else [LogLine(commits[0])] + LogLines(commits[1..])
  }

  /** Lines that each parse to one commit give those commits, in order. */
  lemma {:induction false} ParseLinesOfLogLines(commits: seq<CommitInfo>)
    requires forall i :: 0 <= i < |commits| ==> SpaceFreeKey(commits[i])
    ensures ParseLines(LogLines(commits)) == commits
    decreases |commits|
  {
    if |commits| > 0 {
      var ls := LogLines(commits);
      LogLineRoundTrip(commits[0]);
      ParseLinesCons(ls, commits[0]);
      assert ls[1..] == LogLines(commits[1..]);
      ParseLinesOfLogLines(commits[1..]);
      assert commits == [commits[0]] + commits[1..];
    }
  }

  /** A first line that parses contributes its commit ahead of the rest. */
  lemma ParseLinesCons(ls: seq<string>, c: CommitInfo)
    requires |ls| > 0 && ParseLogLine(ls[0]) == Some(c)
    ensures ParseLines(ls) == [c] + ParseLines(ls[1..])
  {
  }

  /** A hash as git prints it: non-empty, no whitespace. */
  predicate IsHash(h: string) {
    |h| > 0 && forall k :: 0 <= k < |h| ==> !IsWhitespace(h[k])
  }

  /** A commit git can print: a hash, an author without spaces, no line breaks. */
  predicate Printable(c: CommitInfo) {
    && IsHash(c.hash)
    && ' ' !in c.authorEmail
    && '\n' !in c.authorEmail && '\n' !in c.date
  }

  /** A printable commit's log line is one line that starts with the hash. */
  lemma PrintableLine(c: CommitInfo)
    requires Printable(c)
    ensures '\n' !in LogLine(c) && LogLine(c)[0] == c.hash[0] && SpaceFreeKey(c)
  {
    assert '\n' !in c.hash && ' ' !in c.hash by {
      forall k | 0 <= k < |c.hash|
        ensures c.hash[k] != '\n' && c.hash[k] != ' '
      {
        assert !IsWhitespace(c.hash[k]);
      }
    }
  }

  /** The log of printable commits is not blank and splits back into its lines. */
  lemma LogSplitsIntoLines(commits: seq<CommitInfo>)
    requires |commits| > 0
    requires forall i :: 0 <= i < |commits| ==> Printable(commits[i])
    ensures Lines(Join(LogLines(commits), "\n")) == LogLines(commits)
    ensures !IsBlank(Join(LogLines(commits), "\n"))
  {
    var ls := LogLines(commits);
    forall i | 0 <= i < |ls|
      ensures '\n' !in ls[i]
    {
      PrintableLine(commits[i]);
    }
    SplitJoin(ls, '\n');
    PrintableLine(commits[0]);
    JoinStartsWithFirst(ls, "\n");
    assert Join(ls, "\n")[0] == ls[0][0];
  }

  /**
   * `getCommits` loses nothing and keeps git's order: parsing the log of
   * printable commits gives back exactly those commits.
   */
  lemma ParseCommitsOfLog(commits: seq<CommitInfo>)
    requires forall i :: 0 <= i < |commits| ==> Printable(commits[i])
    ensures ParseCommits(Join(LogLines(commits), "\n")) == commits
  {
    if |commits| == 0 {
      assert Join(LogLines(commits), "\n") == [];
    } else {
      LogSplitsIntoLines(commits);
      forall i | 0 <= i < |commits|
        ensures SpaceFreeKey(commits[i])
      {
        PrintableLine(commits[i]);
      }
      ParseLinesOfLogLines(commits);
    }
  }

  /**
   * `findRootCommits`: the trimmed non-blank lines of the `rev-list
   * --max-parents=0 HEAD` output as a set, or the empty set when git failed
   * (None).
   */
  function RootCommits(output: Option<string>): (roots: set<string>)
    ensures output.None? ==> roots == {}
    ensures output.Some? ==> forall h :: h in roots <==> exists l :: l in Lines(output.value) && Trim(l) == h && !IsBlank(h)
  {
    match output
    case None => {}
    case Some(text) => set l | l in Lines(text) && !IsBlank(Trim(l)) :: Trim(l)
  }

  /** A line's trimmed text has no surrounding whitespace and no line break. */
  lemma TrimmedLine(l: string)
    requires '\n' !in l
    ensures Trim(Trim(l)) == Trim(l) && '\n' !in Trim(l)
  {
    TrimOfTrimmed(Trim(l));
    TrimKeepsAbsent(l, '\n');
  }

  /** A line of a text holds no line break. */
  lemma LineHasNoBreak(text: string, l: string)
    requires l in Lines(text)
    ensures '\n' !in l
  {
    var ls := Lines(text);
    var i :| 0 <= i < |ls| && ls[i] == l;
  }

  /** Every root hash is non-blank, has no surrounding whitespace and lies on one line. */
  lemma RootCommitsAreHashes(output: Option<string>, h: string)
    requires h in RootCommits(output)
    ensures !IsBlank(h) && Trim(h) == h && '\n' !in h
  {
    var l :| l in Lines(output.value) && Trim(l) == h && !IsBlank(h);
    LineHasNoBreak(output.value, l);
    TrimmedLine(l);
  }

  /** Hashes each alone on a line: the lines of their join are the hashes. */
  predicate RootList(hashes: seq<string>) {
    && |hashes| >= 1
    && forall i :: 0 <= i < |hashes| ==> '\n' !in hashes[i] && !IsBlank(hashes[i]) && Trim(hashes[i]) == hashes[i]
  }

  /** Every root found is one of the listed hashes. */
  lemma RootsAreListed(hashes: seq<string>, h: string)
    requires RootList(hashes) && Lines(Join(hashes, "\n")) == hashes
    requires h in RootCommits(Some(Join(hashes, "\n")))
    ensures exists i :: 0 <= i < |hashes| && hashes[i] == h
  {
    var l :| l in hashes && Trim(l) == h && !IsBlank(h);
    var i :| 0 <= i < |hashes| && hashes[i] == l;
  }

  /** Every listed hash is found as a root. */
  lemma ListedAreRoots(hashes: seq<string>, i: nat)
    requires RootList(hashes) && Lines(Join(hashes, "\n")) == hashes
    requires i < |hashes|
    ensures hashes[i] in RootCommits(Some(Join(hashes, "\n")))
  {
    var h := hashes[i];
    assert h in Lines(Join(hashes, "\n")) && Trim(h) == h && !IsBlank(h);
  }

  /** The roots listed one per line, padded or not, are exactly the listed hashes. */
  lemma RootCommitsOfList(hashes: seq<string>, h: string)
    requires RootList(hashes)
    ensures h in RootCommits(Some(Join(hashes, "\n"))) <==> h in hashes
  {
    SplitJoin(hashes, '\n');
    if h in RootCommits(Some(Join(hashes, "\n"))) {
      RootsAreListed(hashes, h);
    }
    if h in hashes {
      var i :| 0 <= i < |hashes| && hashes[i] == h;
      ListedAreRoots(hashes, i);
    }
  }

  /**
   * `isRootCommit`: the trimmed `rev-list --parents -1` output splits on
   * spaces into a single part, which is the case exactly when it holds no
   * space, i.e. git listed the commit with no parent.
   */
  function IsRootCommit(output: string): (root: bool)
    ensures root <==> ' ' !in Trim(output)
  {
    |Split(Trim(output), ' ', 0)| == 1
  }

  /** A hash holds no space and no line break. */
  lemma HashHasNoBreaks(h: string)
    requires IsHash(h)
    ensures ' ' !in h && '\n' !in h
  {
    forall k | 0 <= k < |h|
      ensures h[k] != ' ' && h[k] != '\n'
    {
      assert !IsWhitespace(h[k]);
    }
  }

  /** A hash alone on its line: trimming leaves the hash, which holds no space. */
  lemma AloneIsRoot(hash: string)
    requires IsHash(hash)
    ensures IsRootCommit(hash + "\n")
  {
    assert ' ' !in Trim(hash + "\n") by {
      assert IsBlank("\n");
      TrimDropsTrailing(hash, "\n");
      HashHasNoBreaks(hash);
    }
  }

  /** A hash followed by parents: the space after the hash survives trimming. */
  lemma ParentsMakeNonRoot(hash: string, parents: seq<string>)
    requires IsHash(hash) && |parents| > 0
    requires forall i :: 0 <= i < |parents| ==> IsHash(parents[i])
    ensures !IsRootCommit(hash + " " + Join(parents, " ") + "\n")
  {
    var joined := Join(parents, " ");
    var out := hash + " " + joined + "\n";
    assert ' ' in Trim(out) by {
      JoinStartsWithFirst(parents, " ");
      assert out[0] == hash[0] && out[|hash|] == ' ' && out[|hash| + 1] == joined[0] == parents[0][0];
      TrimKeepsUpTo(out, |hash|, |hash| + 1);
    }
  }

  /** A commit listed alone is a root; one listed with parent hashes is not. */
  lemma RootIffNoParents(hash: string, parents: seq<string>)
    requires IsHash(hash)
    requires forall i :: 0 <= i < |parents| ==> IsHash(parents[i])
    ensures IsRootCommit(hash + "\n")
    ensures |parents| > 0 ==> !IsRootCommit(hash + " " + Join(parents, " ") + "\n")
  {
    AloneIsRoot(hash);
    if |parents| > 0 {
      ParentsMakeNonRoot(hash, parents);
    }
  }

  /** The `diff-tree` arguments of the current client: `--root` only for a root commit. */
  function DiffTreeArgs(hash: string, isRoot: bool): (args: seq<string>)
    ensures |args| == if isRoot then 8 else 7
    ensures args[0] == "diff-tree" && (args[1] == "--root" <==> isRoot)
    ensures args[|args| - 6..] == ["-M", "-U999999", "-p", hash, "--", "*.kt"]
  {
    ["diff-tree"] + (if isRoot then ["--root"] else []) + ["-M", "-U999999", "-p", hash, "--", "*.kt"]
  }

  /**
   * `getDiffForCommit(hash)` of the current client: it asks `rev-list
   * --parents -1` and passes `--root` exactly when git listed no parent.
   */
  function DiffArgsFor(hash: string, revListOutput: string): (args: seq<string>)
    ensures |args| == if ' ' !in Trim(revListOutput) then 8 else 7
    ensures args[0] == "diff-tree" && (args[1] == "--root" <==> ' ' !in Trim(revListOutput))
    ensures args[|args| - 6..] == ["-M", "-U999999", "-p", hash, "--", "*.kt"]
  {
    DiffTreeArgs(hash, IsRootCommit(revListOutput))
  }

  /** The legacy client's `diff-tree` arguments: no rename detection, default context. */
  function LegacyDiffTreeArgs(hash: string, isRoot: bool): (args: seq<string>)
    ensures |args| == if isRoot then 6 else 5
    ensures args[0] == "diff-tree" && (args[1] == "--root" <==> isRoot)
    ensures args[|args| - 4..] == ["-p", hash, "--", "*.kt"]
  {
    ["diff-tree"] + (if isRoot then ["--root"] else []) + ["-p", hash, "--", "*.kt"]
  }

  /**
   * `getDiffForCommit(hash)` of the legacy client: like the current one, it
   * passes `--root` exactly when `rev-list --parents -1` listed no parent.
   */
  function LegacyDiffArgsFor(hash: string, revListOutput: string): (args: seq<string>)
    ensures |args| == if ' ' !in Trim(revListOutput) then 6 else 5
    ensures args[0] == "diff-tree" && (args[1] == "--root" <==> ' ' !in Trim(revListOutput))
    ensures args[|args| - 4..] == ["-p", hash, "--", "*.kt"]
  {
    LegacyDiffTreeArgs(hash, IsRootCommit(revListOutput))
  }

  /** Cutting the middle out of a three-piece sequence. */
  lemma CutMiddle<T>(a: seq<T>, b: seq<T>, c: seq<T>)
    ensures (a + b + c)[..|a|] == a && (a + b + c)[|a| + |b|..] == c
  {
  }

  /**
   * The legacy arguments are the current ones without `-M` and `-U999999`,
   * for the same commit and the same answer to the root question.
   */
  lemma LegacyArgsDropRenamesAndContext(hash: string, isRoot: bool)
    ensures var current := DiffTreeArgs(hash, isRoot);
            LegacyDiffTreeArgs(hash, isRoot) == current[..|current| - 6] + current[|current| - 4..]
  {
    var head := if isRoot then ["diff-tree", "--root"] else ["diff-tree"];
    var flags, tail := ["-M", "-U999999"], ["-p", hash, "--", "*.kt"];
    CutMiddle(head, flags, tail);
  }
}
