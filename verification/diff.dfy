/**
 * The vocabulary shared by both test parsers: what a line of `git diff`
 * output is, and what a detected test looks like.
 */
module Diff {
  import opened Wrappers
  import opened Text
  import opened FunName

  /** `NewTestInfo`: a test function and the file it was added to. */
  datatype NewTestInfo = NewTestInfo(functionName: string, filePath: string)

  /**
   * The shape of one diff line, in the order the parsers test for it: a file
   * header `+++ b/<path>`, metadata (`---`, `diff `, `index `), a hunk header
   * `@@`, an added or removed line (with its content after the prefix,
   * trimmed), or anything else, treated as unchanged context.
   */
  datatype LineKind =
    | FileHeader(path: string)
    | Metadata
    | HunkHeader
    | Added(content: string)
    | Removed(content: string)
    | Context

  /** Sorts a line into its kind, with the precedence both parsers use. */
  function Classify(line: string): (k: LineKind)
    ensures k.FileHeader? <==> StartsWith(line, "+++ b/")
    ensures k.FileHeader? ==> line == "+++ b/" + k.path
    ensures k.Metadata? <==> StartsWith(line, "---") || StartsWith(line, "diff ") || StartsWith(line, "index ")
    ensures k.HunkHeader? <==> StartsWith(line, "@@")
    ensures k.Added? <==> |line| > 0 && line[0] == '+' && !StartsWith(line, "+++ b/")
    ensures k.Removed? <==> |line| > 0 && line[0] == '-' && !StartsWith(line, "---")
    ensures (k.Added? || k.Removed?) ==> |line| > 0 && k.content == Trim(line[1..])
    ensures k.Context? <==> |line| == 0 || (line[0] != '+' && line[0] != '-' && !StartsWith(line, "@@")
                                          && !StartsWith(line, "diff ") && !StartsWith(line, "index "))
  {
    PrefixHeads(line);
    if StartsWith(line, "+++ b/") then
      assert line == "+++ b/" + line[6..];
      FileHeader(line[6..])
    else if StartsWith(line, "---") || StartsWith(line, "diff ") || StartsWith(line, "index ") then Metadata
    else if StartsWith(line, "@@") then HunkHeader
    else if StartsWith(line, "+") then Added(Trim(line[1..]))
    else if StartsWith(line, "-") then Removed(Trim(line[1..]))
    else Context
  }

  /** The first character of each prefix `Classify` tests for. */
  lemma PrefixHeads(line: string)
    ensures StartsWith(line, "+++ b/") ==> |line| >= 6 && line[0] == '+'
    ensures StartsWith(line, "---") ==> |line| > 0 && line[0] == '-'
    ensures StartsWith(line, "diff ") ==> |line| > 0 && line[0] == 'd'
    ensures StartsWith(line, "index ") ==> |line| > 0 && line[0] == 'i'
    ensures StartsWith(line, "@@") ==> |line| > 0 && line[0] == '@'
    ensures StartsWith(line, "+") <==> |line| > 0 && line[0] == '+'
    ensures StartsWith(line, "-") <==> |line| > 0 && line[0] == '-'
  {
    if |line| > 0 {
      assert StartsWith(line, "+") <==> line[..1] == [line[0]] == "+";
      assert StartsWith(line, "-") <==> line[..1] == [line[0]] == "-";
    }
  }

  /** The kinds of all lines of a diff, in order. */
  function Kinds(lines: seq<string>): (ks: seq<LineKind>)
    ensures |ks| == |lines|
    ensures forall i :: 0 <= i < |lines| ==> ks[i] == Classify(lines[i])
  {
    if |lines| == 0 then [] else [Classify(lines[0])] + Kinds(lines[1..])
  }

  /** Number of added lines among `ks`. */
  function CountAdded(ks: seq<LineKind>): nat {
    if |ks| == 0 then 0 else CountAdded(ks[..|ks| - 1]) + (if ks[|ks| - 1].Added? then 1 else 0)
  }

  /**
   * The test a declaration line contributes: its extracted function name in
   * the current file, or nothing when no name extracts or no file header has
   * been seen yet.
   */
  function DeclaredTest(content: string, currentFile: Option<string>): (r: seq<NewTestInfo>)
    ensures |r| <= 1
    ensures |r| == 1 <==> ExtractFunctionName(content).Some? && currentFile.Some?
    ensures |r| == 1 ==> (Some(r[0].functionName) == ExtractFunctionName(content)
                          && Some(r[0].filePath) == currentFile)
  {
    match (ExtractFunctionName(content), currentFile)
    case (Some(name), Some(path)) => [NewTestInfo(name, path)]
    case _ => []
  }

  /** No added line, nothing counted. */
  lemma {:induction false} NothingAddedCountsZero(ks: seq<LineKind>)
    requires forall i :: 0 <= i < |ks| ==> !ks[i].Added?
    ensures CountAdded(ks) == 0
    decreases |ks|
  {
    if |ks| > 0 {
      NothingAddedCountsZero(ks[..|ks| - 1]);
    }
  }

  /** A blank diff has no added line: every line of it is blank, so none starts with `+`. */
  lemma BlankDiffAddsNothing(diff: string)
    requires IsBlank(diff)
    ensures CountAdded(Kinds(Lines(diff))) == 0
  {
    var lines := Lines(diff);
    LinesJoinBack(diff);
    JoinOfBlank(lines, "\n");
    var ks := Kinds(lines);
    forall i | 0 <= i < |ks|
      ensures !ks[i].Added?
    {
      if |lines[i]| > 0 {
        assert IsWhitespace(lines[i][0]);
      }
    }
    NothingAddedCountsZero(ks);
  }

  /** Counting the added lines of one more line. */
  lemma CountAddedSnoc(ks: seq<LineKind>, k: LineKind)
    ensures CountAdded(ks + [k]) == CountAdded(ks) + (if k.Added? then 1 else 0)
  {
    assert (ks + [k])[..|ks + [k]| - 1] == ks;
  }

  /**
   * Record `t` is accounted for: the added line `ks[i]` declares its name,
   * and `ks[j]` is the last file header before that line and names its file.
   */
  ghost predicate AttributedAt(t: NewTestInfo, ks: seq<LineKind>, j: nat, i: nat) {
    && j < i < |ks|
    && ks[j] == FileHeader(t.filePath)
    && ks[i].Added? && ExtractFunctionName(ks[i].content) == Some(t.functionName)
    && forall m :: j < m < i ==> !ks[m].FileHeader?
  }

  ghost predicate Attributed(t: NewTestInfo, ks: seq<LineKind>) {
    exists j: nat, i: nat :: AttributedAt(t, ks, j, i)
  }

  /** `ks[j]` is a header for `path` and no header follows it. */
  ghost predicate LastHeaderAt(path: string, ks: seq<LineKind>, j: nat) {
    j < |ks| && ks[j] == FileHeader(path) && forall m :: j < m < |ks| ==> !ks[m].FileHeader?
  }

  /** `currentFile` is the path of the most recent file header, or None before the first. */
  ghost predicate IsLastHeader(f: Option<string>, ks: seq<LineKind>) {
    match f
    case None => forall m :: 0 <= m < |ks| ==> !ks[m].FileHeader?
    case Some(path) => exists j: nat :: LastHeaderAt(path, ks, j)
  }

  /** Attribution survives reading one more line. */
  lemma AttributedExtends(t: NewTestInfo, ks: seq<LineKind>, k: LineKind)
    requires Attributed(t, ks)
    ensures Attributed(t, ks + [k])
  {
    var j: nat, i: nat :| AttributedAt(t, ks, j, i);
    assert AttributedAt(t, ks + [k], j, i);
  }

  /** A test declared on an added line is accounted for by that line and the last header. */
  lemma DeclaredIsAttributed(f: Option<string>, ks: seq<LineKind>, content: string)
    requires IsLastHeader(f, ks)
    ensures forall t :: t in DeclaredTest(content, f) ==>
              Attributed(t, ks + [Added(content)]) && f == Some(t.filePath)
  {
    var d := DeclaredTest(content, f);
    if |d| == 1 {
      var j: nat :| LastHeaderAt(f.value, ks, j);
      assert AttributedAt(d[0], ks + [Added(content)], j, |ks|);
    }
  }

  /** A line that is not a file header leaves the most recent header as it was. */
  lemma IsLastHeaderExtends(f: Option<string>, ks: seq<LineKind>, k: LineKind)
    requires IsLastHeader(f, ks) && !k.FileHeader?
    ensures IsLastHeader(f, ks + [k])
  {
    if f.Some? {
      var j: nat :| LastHeaderAt(f.value, ks, j);
      assert LastHeaderAt(f.value, ks + [k], j);
    }
  }

  /**
   * Record `t` is accounted for in the raw diff: `lines[i]` is an added line
   * whose trimmed content declares the name, and `lines[j]` is the last
   * `+++ b/` line before it and carries the file path.
   */
  ghost predicate LineAttributedAt(t: NewTestInfo, lines: seq<string>, j: nat, i: nat) {
    && j < i < |lines|
    && lines[j] == "+++ b/" + t.filePath
    && |lines[i]| > 0 && lines[i][0] == '+' && !StartsWith(lines[i], "+++ b/")
    && ExtractFunctionName(Trim(lines[i][1..])) == Some(t.functionName)
    && forall m :: j < m < i ==> !StartsWith(lines[m], "+++ b/")
  }

  /** A line classified as a header for `path` is `+++ b/` and the path. */
  lemma HeaderLine(line: string, path: string)
    requires Classify(line) == FileHeader(path)
    ensures line == "+++ b/" + path
  {
  }

  /** A line classified as added starts with `+`, is no header, and carries the content trimmed. */
  lemma AddedLine(line: string, content: string)
    requires Classify(line) == Added(content)
    ensures |line| > 0 && line[0] == '+' && !StartsWith(line, "+++ b/") && content == Trim(line[1..])
  {
  }

  /** Attribution at positions `j` and `i` of the kinds is attribution at the same lines. */
  lemma AttributedAtLines(t: NewTestInfo, lines: seq<string>, j: nat, i: nat)
    requires AttributedAt(t, Kinds(lines), j, i)
    ensures LineAttributedAt(t, lines, j, i)
  {
    var ks := Kinds(lines);
    HeaderLine(lines[j], t.filePath);
    AddedLine(lines[i], ks[i].content);
    forall m | j < m < i
      ensures !StartsWith(lines[m], "+++ b/")
    {
      assert !ks[m].FileHeader?;
    }
  }

  /** Attribution on line kinds is attribution on the lines they came from. */
  lemma AttributionOnLines(t: NewTestInfo, lines: seq<string>)
    requires Attributed(t, Kinds(lines))
    ensures exists j: nat, i: nat :: LineAttributedAt(t, lines, j, i)
  {
    var j: nat, i: nat :| AttributedAt(t, Kinds(lines), j, i);
    AttributedAtLines(t, lines, j, i);
  }
}
