/**
 * `findNewTests` of the legacy parser (package `analyzer`): one pass over the
 * diff lines with a single pending-marker flag.  Every test declared on an
 * added line after a marker is reported at once; removed lines are never
 * inspected, they only clear the flag like context lines do.
 */
module LegacyTestParser {
  import opened Wrappers
  import opened Text
  import opened FunName
  import opened Markers
  import opened Diff

  /** The parser's variables between two lines. */
  datatype State = State(results: seq<NewTestInfo>, currentFile: Option<string>, pending: bool)

  const Initial: State := State([], None, false)

  /**
   * An added line (`+`, content trimmed), in the legacy order: the
   * declaration test comes BEFORE the test for an intermediate `@` line.
   * Only a declaration line can add a record, and it adds at most the test
   * it declares.
   */
  function AddedLine(s: State, content: string): (s': State)
    ensures s'.currentFile == s.currentFile
    ensures s'.results == s.results || s'.results == s.results + DeclaredTest(content, s.currentFile)
    ensures s'.results != s.results ==> ContainsFunDeclaration(content)
  {
    if HasTestAnnotationAndFun(content) then
      s.(results := s.results + DeclaredTest(content, s.currentFile), pending := false)
    else if IsTestAnnotation(content) then
      s.(pending := true)
    else if s.pending && ContainsFunDeclaration(content) then
      s.(results := s.results + DeclaredTest(content, s.currentFile), pending := false)
    else if s.pending && StartsWith(content, "@") then
      s
    else if s.pending && IsBlank(content) then
      s
    else
      s.(pending := false)
  }

  /** One iteration of the loop over the diff lines. */
  function Step(s: State, k: LineKind): State {
    match k
    case FileHeader(path) => s.(currentFile := Some(path), pending := false)
    case Metadata => s
    case HunkHeader => s.(pending := false)
    case Added(content) => AddedLine(s, content)
    case Removed(_) => s.(pending := false)
    case Context => s.(pending := false)
  }

  /** The state after the lines `ks`, starting from `s`. */
  function Run(s: State, ks: seq<LineKind>): State
    decreases |ks|
  {
    if |ks| == 0 then s else Step(Run(s, ks[..|ks| - 1]), ks[|ks| - 1])
  }

  /** Running over `a + b` is running over `a`, then over `b`. */
  lemma {:induction false} RunAppend(s: State, a: seq<LineKind>, b: seq<LineKind>)
    ensures Run(s, a + b) == Run(Run(s, a), b)
    decreases |b|
  {
    if |b| == 0 {
      assert a + b == a;
    } else {
      assert (a + b)[..|a + b| - 1] == a + b[..|b| - 1];
      RunAppend(s, a, b[..|b| - 1]);
    }
  }

  /** Running over one line first, then the rest. */
  lemma RunCons(s: State, k: LineKind, ks: seq<LineKind>)
    ensures Run(s, [k] + ks) == Run(Step(s, k), ks)
  {
    RunAppend(s, [k], ks);
    assert [k][..0] == [];
  }

  /** Results are only ever appended to: earlier reports are never withdrawn. */
  lemma {:induction false} ResultsOnlyGrow(s: State, ks: seq<LineKind>)
    ensures |s.results| <= |Run(s, ks).results|
    ensures Run(s, ks).results[..|s.results|] == s.results
    decreases |ks|
  {
    if |ks| > 0 {
      ResultsOnlyGrow(s, ks[..|ks| - 1]);
      var before := Run(s, ks[..|ks| - 1]);
      assert before.results[..|s.results|] == s.results;
      var after := Step(before, ks[|ks| - 1]);
      assert after.results[..|before.results|] == before.results;
      assert after.results[..|s.results|] == before.results[..|s.results|];
    }
  }

  /** What holds of the parser state after any prefix `ks` of the diff. */
  ghost predicate Invariant(s: State, ks: seq<LineKind>) {
    && IsLastHeader(s.currentFile, ks)
    && (forall t :: t in s.results ==> Attributed(t, ks))
    && |s.results| <= CountAdded(ks)
  }

  /** One step keeps the invariant. */
  lemma StepKeepsInvariant(s: State, ks: seq<LineKind>, k: LineKind)
    requires Invariant(s, ks)
    ensures Invariant(Step(s, k), ks + [k])
  {
    var ks' := ks + [k];
    forall t | t in s.results
      ensures Attributed(t, ks')
    {
      AttributedExtends(t, ks, k);
    }
    CountAddedSnoc(ks, k);
    if k.FileHeader? {
      assert LastHeaderAt(k.path, ks', |ks|);
    } else {
      IsLastHeaderExtends(s.currentFile, ks, k);
      if k.Added? {
        DeclaredIsAttributed(s.currentFile, ks, k.content);
      }
    }
  }

  /** The invariant holds after every prefix of the diff. */
  lemma {:induction false} InvariantHolds(ks: seq<LineKind>)
    ensures Invariant(Run(Initial, ks), ks)
    decreases |ks|
  {
    if |ks| > 0 {
      var pre := ks[..|ks| - 1];
      InvariantHolds(pre);
      StepKeepsInvariant(Run(Initial, pre), pre, ks[|ks| - 1]);
      assert pre + [ks[|ks| - 1]] == ks;
    }
  }

  /** The records of a whole run: there is no final flush. */
  function Records(ks: seq<LineKind>): (r: seq<NewTestInfo>)
    ensures |r| <= CountAdded(ks)
    ensures forall t :: t in r ==> Attributed(t, ks)
  {
    InvariantHolds(ks);
    Run(Initial, ks).results
  }

  /** Reading more of the diff only appends records: the records of a prefix are a prefix. */
  lemma RecordsOfPrefix(a: seq<LineKind>, b: seq<LineKind>)
    ensures |Records(a)| <= |Records(a + b)|
    ensures Records(a + b)[..|Records(a)|] == Records(a)
  {
    RunAppend(Initial, a, b);
    ResultsOnlyGrow(Run(Initial, a), b);
  }

  /**
   * `findNewTests`: every reported test was declared on an added line, in
   * the file of the most recent `+++ b/` header before that line, and there
   * are never more reports than added lines.
   */
  function FindNewTests(diff: string): (r: seq<NewTestInfo>)
    ensures |r| <= CountAdded(Kinds(Lines(diff)))
    ensures forall t :: t in r ==> exists j: nat, i: nat :: LineAttributedAt(t, Lines(diff), j, i)
  {
    var lines := Lines(diff);
    var r := Records(Kinds(lines));
    forall t | t in r
      ensures exists j: nat, i: nat :: LineAttributedAt(t, lines, j, i)
    {
      AttributionOnLines(t, lines);
    }
    r
  }

  /**
   * Every line other than an added line or diff metadata forgets the pending
   * marker: whatever follows is read the same way whether or not a marker
   * was pending before it.  Removed lines included, since the legacy parser
   * treats them as context.
   */
  lemma BoundaryForgetsPending(s: State, boundary: LineKind, ks: seq<LineKind>, p: bool)
    requires !boundary.Added? && !boundary.Metadata?
    ensures Run(s, [boundary] + ks) == Run(s.(pending := p), [boundary] + ks)
  {
    RunCons(s, boundary, ks);
    RunCons(s.(pending := p), boundary, ks);
  }

  /**
   * While a marker is pending: a `fun` line consumes it and reports its
   * test, even when it starts with `@`; other `@` lines and blank lines keep
   * it; any other line clears it.
   */
  lemma PendingRules(s: State, c: string)
    requires s.pending && !IsTestAnnotation(c)
    ensures ContainsFunDeclaration(c) ==>
              AddedLine(s, c) == s.(results := s.results + DeclaredTest(c, s.currentFile), pending := false)
    ensures !ContainsFunDeclaration(c) && (StartsWith(c, "@") || IsBlank(c)) ==> AddedLine(s, c) == s
    ensures !ContainsFunDeclaration(c) && !StartsWith(c, "@") && !IsBlank(c) ==> AddedLine(s, c) == s.(pending := false)
  {
    OneLineFormIsMarkerWithFun(c);
  }

  /**
   * Only added lines report: any other line leaves the results as they
   * were, and every line but diff metadata clears the pending flag.
   */
  lemma OnlyAddedLinesReport(s: State, k: LineKind)
    requires !k.Added?
    ensures Step(s, k).results == s.results
    ensures !k.Metadata? ==> !Step(s, k).pending
  {
  }

  /** A `---`, `diff ` or `index ` line changes nothing. */
  lemma MetadataChangesNothing(s: State, line: string)
    requires StartsWith(line, "---") || StartsWith(line, "diff ") || StartsWith(line, "index ")
    ensures Step(s, Classify(line)) == s
  {
  }

  /**
   * A marker line followed by ANY line with the `fun` keyword reports the
   * declared test: unlike the current parser, the declaration may itself
   * start with `@`.
   */
  lemma MarkerThenDeclaration(s: State, marker: string, decl: string)
    requires IsBareMarker(marker) && ContainsFunDeclaration(decl)
    ensures AddedLine(AddedLine(s, marker), decl)
            == s.(results := s.results + DeclaredTest(decl, s.currentFile), pending := false)
  {
    OneLineFormIsMarkerWithFun(marker);
    OneLineFormIsMarkerWithFun(decl);
    if IsTestAnnotation(decl) {
      MarkerLineStartsWithAt(decl);
      assert !StartsWith(decl, "fun ") by {
        assert decl[0] == '@';
      }
    }
  }

  /** A marker that was only context (or removed) never makes the following added declaration count. */
  lemma UnchangedMarkerNeverCounts(s: State, k: LineKind, decl: string)
    requires k.Context? || k.Removed?
    requires !HasTestAnnotationAndFun(decl)
    ensures Run(s, [k, Added(decl)]).results == s.results
  {
    RunCons(s, k, [Added(decl)]);
    RunCons(Step(s, k), Added(decl), []);
  }

  /** Reading three lines is three steps. */
  lemma Run3(s: State, k1: LineKind, k2: LineKind, k3: LineKind)
    ensures Run(s, [k1, k2, k3]) == Step(Step(Step(s, k1), k2), k3)
  {
    assert [k1, k2, k3] == [k1] + [k2, k3] && [k2, k3] == [k2] + [k3];
    RunCons(s, k1, [k2, k3]);
    RunCons(Step(s, k1), k2, [k3]);
    RunCons(Step(Step(s, k1), k2), k3, []);
  }

  /**
   * A hunk that removes one marked declaration and adds one back reports
   * the added one: removed lines are not inspected.
   */
  lemma ReplacedDeclarationIsReported(s: State, marker: string, oldDecl: string, newDecl: string, name: string, path: string)
    requires IsBareMarker(marker) && ContainsFunDeclaration(newDecl)
    requires ExtractFunctionName(newDecl) == Some(name) && s.currentFile == Some(path)
    ensures Run(s, [HunkHeader, Removed(marker), Removed(oldDecl), Added(marker), Added(newDecl), HunkHeader]).results
            == s.results + [NewTestInfo(name, path)]
  {
    var front, back := [HunkHeader, Removed(marker), Removed(oldDecl)], [Added(marker), Added(newDecl), HunkHeader];
    assert front + back == [HunkHeader, Removed(marker), Removed(oldDecl), Added(marker), Added(newDecl), HunkHeader];
    RunAppend(s, front, back);
    Run3(s, HunkHeader, Removed(marker), Removed(oldDecl));
    var mid := Run(s, front);
    Run3(mid, Added(marker), Added(newDecl), HunkHeader);
    MarkerThenDeclaration(mid, marker, newDecl);
  }
}
