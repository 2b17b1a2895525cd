/**
 * `findNewTests` of the current parser (package `com.analyzer`): one pass over
 * the diff lines keeping, per hunk, the tests declared on added lines and the
 * number of tests declared on removed lines.  At every hunk or file boundary,
 * and at the end, the hunk is flushed: the last `added - removed` added tests
 * (none if that is negative) become results.  Cancellation is by count, not
 * by name.
 */
module TestParser {
  import opened Wrappers
  import opened Text
  import opened FunName
  import opened Markers
  import opened Diff

  /** The parser's variables between two lines. */
  datatype State = State(
    results: seq<NewTestInfo>,
    currentFile: Option<string>,
    addedPending: bool,
    addedTests: seq<NewTestInfo>,
    removedPending: bool,
    removedCount: nat)

  const Initial: State := State([], None, false, [], false, 0)

  /** `(addedTests.size - removedTestCount).coerceAtLeast(0)`. */
  function NetNew(s: State): nat {
    if |s.addedTests| > s.removedCount then |s.addedTests| - s.removedCount else 0
  }

  /** Kotlin's `takeLast(n)`: the last `n` elements, or all of them when there are fewer. */
  function TakeLast<T>(xs: seq<T>, n: nat): (r: seq<T>)
    ensures |r| == if n < |xs| then n else |xs|
    ensures xs == xs[..|xs| - |r|] + r
  {
    if n < |xs| then xs[|xs| - n..] else xs
  }

  /**
   * `flushHunk`: appends exactly `NetNew(s)` records, the last ones of the
   * hunk's added list in encounter order, keeps earlier results, and clears
   * the added list, the removed count and both pending flags.
   */
  function FlushHunk(s: State): (s': State)
    ensures s'.currentFile == s.currentFile
    ensures s'.addedTests == [] && s'.removedCount == 0 && !s'.addedPending && !s'.removedPending
    ensures |s'.results| == |s.results| + NetNew(s)
    ensures s'.results[..|s.results|] == s.results
    ensures s.addedTests == s.addedTests[..|s.addedTests| - NetNew(s)] + s'.results[|s.results|..]
  {
    var netNew := NetNew(s);
    var emitted := if netNew > 0 then TakeLast(s.addedTests, netNew) else [];
    s.(results := s.results + emitted, addedTests := [], removedCount := 0,
       addedPending := false, removedPending := false)
  }

  /**
   * An added line (`+`, content trimmed).  It touches only the added side:
   * the removed flag and count, the results and the current file stay as
   * they were, and the added list grows by at most the test the line declares.
   */
  function AddedLine(s: State, content: string): (s': State)
    ensures s'.results == s.results && s'.currentFile == s.currentFile
    ensures s'.removedPending == s.removedPending && s'.removedCount == s.removedCount
    ensures s'.addedTests == s.addedTests || s'.addedTests == s.addedTests + DeclaredTest(content, s.currentFile)
  {
    if HasTestAnnotationAndFun(content) then
      s.(addedTests := s.addedTests + DeclaredTest(content, s.currentFile), addedPending := false)
    else if IsTestAnnotation(content) then
      s.(addedPending := true)
    else if s.addedPending && StartsWith(content, "@") then
      s
    else if s.addedPending && ContainsFunDeclaration(content) then
      s.(addedTests := s.addedTests + DeclaredTest(content, s.currentFile), addedPending := false)
    else if s.addedPending && IsBlank(content) then
      s
    else
      s.(addedPending := false)
  }

  /**
   * A removed line (`-`, content trimmed).  It touches only the removed side,
   * and a recognised declaration is counted whether or not a name extracts.
   */
  function RemovedLine(s: State, content: string): (s': State)
    ensures s'.results == s.results && s'.currentFile == s.currentFile
    ensures s'.addedPending == s.addedPending && s'.addedTests == s.addedTests
    ensures s'.removedCount == s.removedCount || s'.removedCount == s.removedCount + 1
  {
    if HasTestAnnotationAndFun(content) then
      s.(removedCount := s.removedCount + 1, removedPending := false)
    else if IsTestAnnotation(content) then
      s.(removedPending := true)
    else if s.removedPending && StartsWith(content, "@") then
      s
    else if s.removedPending && ContainsFunDeclaration(content) then
      s.(removedCount := s.removedCount + 1, removedPending := false)
    else if s.removedPending && IsBlank(content) then
      s
    else
      s.(removedPending := false)
  }

  /** One iteration of the loop over the diff lines. */
  function Step(s: State, k: LineKind): State {
    match k
    case FileHeader(path) => FlushHunk(s).(currentFile := Some(path))
    case Metadata => s
    case HunkHeader => FlushHunk(s)
    case Added(content) => AddedLine(s, content)
    case Removed(content) => RemovedLine(s, content)
    case Context => s.(addedPending := false, removedPending := false)
  }

  /** The state after the lines `ks`, starting from `s`. */
  function Run(s: State, ks: seq<LineKind>): State
    decreases |ks|
  {
    if |ks| == 0 then s else Step(Run(s, ks[..|ks| - 1]), ks[|ks| - 1])
  }

  /** Running over `a + b` is running over `a`, then over `b`. */
  lemma {:induction false} RunAppend(s: State, a: seq<LineKind>, b: seq<LineKind>)
    ensures Run(s, a + b) == Run(Run(s, a), b)
    decreases |b|
  {
    if |b| == 0 {
      assert a + b == a;
    } else {
      assert (a + b)[..|a + b| - 1] == a + b[..|b| - 1];
      RunAppend(s, a, b[..|b| - 1]);
    }
  }

  /** What holds of the parser state after any prefix `ks` of the diff. */
  ghost predicate Invariant(s: State, ks: seq<LineKind>) {
    && IsLastHeader(s.currentFile, ks)
    && (forall t :: t in s.results ==> Attributed(t, ks))
    && (forall t :: t in s.addedTests ==> Attributed(t, ks) && s.currentFile == Some(t.filePath))
    && |s.results| + |s.addedTests| <= CountAdded(ks)
  }

  /** A flush only moves records from the hunk's added list to the results. */
  lemma FlushKeepsMembers(s: State)
    ensures forall t :: t in FlushHunk(s).results ==> t in s.results || t in s.addedTests
  {
    var f := FlushHunk(s);
    forall t | t in f.results
      ensures t in s.results || t in s.addedTests
    {
      var idx :| 0 <= idx < |f.results| && f.results[idx] == t;
      if idx >= |s.results| {
        assert t == f.results[|s.results|..][idx - |s.results|];
        assert t == s.addedTests[|s.addedTests| - NetNew(s) + idx - |s.results|];
      } else {
        assert t == f.results[..|s.results|][idx];
      }
    }
  }

  /** Every record already accounted for stays accounted for after one more line. */
  lemma AllAttributedExtend(s: State, ks: seq<LineKind>, k: LineKind)
    requires Invariant(s, ks)
    ensures forall t :: t in s.results || t in s.addedTests ==> Attributed(t, ks + [k])
  {
    forall t | t in s.results || t in s.addedTests
      ensures Attributed(t, ks + [k])
    {
      AttributedExtends(t, ks, k);
    }
  }

  /** One step keeps the invariant. */
  lemma StepKeepsInvariant(s: State, ks: seq<LineKind>, k: LineKind)
    requires Invariant(s, ks)
    ensures Invariant(Step(s, k), ks + [k])
  {
    var ks' := ks + [k];
    AllAttributedExtend(s, ks, k);
    CountAddedSnoc(ks, k);
    match k {
      case FileHeader(path) =>
        assert LastHeaderAt(path, ks', |ks|);
        FlushKeepsMembers(s);
      case HunkHeader =>
        FlushKeepsMembers(s);
        IsLastHeaderExtends(s.currentFile, ks, k);
      case Added(content) =>
        IsLastHeaderExtends(s.currentFile, ks, k);
        DeclaredIsAttributed(s.currentFile, ks, content);
      case Metadata =>
        IsLastHeaderExtends(s.currentFile, ks, k);
      case Removed(_) =>
        IsLastHeaderExtends(s.currentFile, ks, k);
      case Context =>
        IsLastHeaderExtends(s.currentFile, ks, k);
    }
  }

  /** The invariant holds after every prefix of the diff. */
  lemma {:induction false} InvariantHolds(ks: seq<LineKind>)
    ensures Invariant(Run(Initial, ks), ks)
    decreases |ks|
  {
    if |ks| > 0 {
      var pre := ks[..|ks| - 1];
      InvariantHolds(pre);
      StepKeepsInvariant(Run(Initial, pre), pre, ks[|ks| - 1]);
      assert pre + [ks[|ks| - 1]] == ks;
    }
  }

  /** The records of a whole run, after the final flush. */
  function Records(ks: seq<LineKind>): (r: seq<NewTestInfo>)
    ensures |r| <= CountAdded(ks)
    ensures forall t :: t in r ==> Attributed(t, ks)
  {
    var s := Run(Initial, ks);
    InvariantHolds(ks);
    FlushKeepsMembers(s);
    var f := FlushHunk(s);
    f.results
  }

  /**
   * `findNewTests`: every reported test was declared on an added line, in
   * the file of the most recent `+++ b/` header before that line, and there
   * are never more reports than added lines.
   */
  function FindNewTests(diff: string): (r: seq<NewTestInfo>)
    ensures |r| <= CountAdded(Kinds(Lines(diff)))
    ensures forall t :: t in r ==> exists j: nat, i: nat :: LineAttributedAt(t, Lines(diff), j, i)
  {
    var lines := Lines(diff);
    var r := Records(Kinds(lines));
    forall t | t in r
      ensures exists j: nat, i: nat :: LineAttributedAt(t, lines, j, i)
    {
      AttributionOnLines(t, lines);
    }
    r
  }

  /** Running over one line first, then the rest. */
  lemma RunCons(s: State, k: LineKind, ks: seq<LineKind>)
    ensures Run(s, [k] + ks) == Run(Step(s, k), ks)
  {
    RunAppend(s, [k], ks);
    assert [k][..0] == [];
  }

  /**
   * A hunk or file boundary forgets both pending markers: whatever follows
   * the boundary is read the same way whether or not a marker was pending
   * before it.
   */
  lemma BoundaryForgetsPending(s: State, boundary: LineKind, ks: seq<LineKind>, a: bool, b: bool)
    requires boundary.HunkHeader? || boundary.FileHeader?
    ensures Run(s, [boundary] + ks) == Run(s.(addedPending := a, removedPending := b), [boundary] + ks)
  {
    RunCons(s, boundary, ks);
    RunCons(s.(addedPending := a, removedPending := b), boundary, ks);
  }

  /**
   * A context line clears both pending markers, so a marker that is only
   * context never makes the following added declaration count, whether the
   * declaration follows it directly or after a removed line (the old
   * declaration it replaces).
   */
  lemma ContextMarkerNeverCounts(s: State, removed: string, decl: string)
    requires !HasTestAnnotationAndFun(decl)
    ensures Run(s, [Context, Added(decl)]).addedTests == s.addedTests
    ensures !Run(s, [Context, Added(decl)]).removedPending
    ensures Run(s, [Context, Removed(removed), Added(decl)]).addedTests == s.addedTests
  {
    RunCons(s, Context, [Added(decl)]);
    RunCons(Step(s, Context), Added(decl), []);
    var t := Step(Step(s, Context), Removed(removed));
    assert [Context, Removed(removed), Added(decl)] == [Context] + [Removed(removed), Added(decl)];
    assert [Removed(removed), Added(decl)] == [Removed(removed)] + [Added(decl)];
    RunCons(s, Context, [Removed(removed), Added(decl)]);
    RunCons(Step(s, Context), Removed(removed), [Added(decl)]);
    RunCons(t, Added(decl), []);
    assert !t.addedPending && t.addedTests == s.addedTests;
  }

  /**
   * While a marker is pending on the added side: `@` lines and blank lines
   * keep it; a `fun` line consumes it and contributes its test; any other
   * line clears it.  None of them touches the results.
   */
  lemma AddedPendingRules(s: State, c: string)
    requires s.addedPending && !IsTestAnnotation(c)
    ensures (StartsWith(c, "@") || IsBlank(c)) ==> AddedLine(s, c) == s
    ensures !StartsWith(c, "@") && ContainsFunDeclaration(c) ==>
              AddedLine(s, c) == s.(addedTests := s.addedTests + DeclaredTest(c, s.currentFile), addedPending := false)
    ensures !StartsWith(c, "@") && !ContainsFunDeclaration(c) && !IsBlank(c) ==> AddedLine(s, c) == s.(addedPending := false)
  {
    OneLineFormIsMarkerWithFun(c);
    if IsBlank(c) {
      BlankHasNoFun(c);
    }
  }

  /**
   * While a marker is pending on the removed side: `@` lines and blank lines
   * keep it; a `fun` line consumes it and counts one removal, whether or not
   * a name extracts from it; any other line clears it.
   */
  lemma RemovedPendingRules(s: State, c: string)
    requires s.removedPending && !IsTestAnnotation(c)
    ensures (StartsWith(c, "@") || IsBlank(c)) ==> RemovedLine(s, c) == s
    ensures !StartsWith(c, "@") && ContainsFunDeclaration(c) ==>
              RemovedLine(s, c) == s.(removedCount := s.removedCount + 1, removedPending := false)
    ensures !StartsWith(c, "@") && !ContainsFunDeclaration(c) && !IsBlank(c) ==> RemovedLine(s, c) == s.(removedPending := false)
  {
    OneLineFormIsMarkerWithFun(c);
    if IsBlank(c) {
      BlankHasNoFun(c);
    }
  }

  /** A `---`, `diff ` or `index ` line changes nothing, not even a pending flag. */
  lemma MetadataChangesNothing(s: State, line: string)
    requires StartsWith(line, "---") || StartsWith(line, "diff ") || StartsWith(line, "index ")
    ensures Step(s, Classify(line)) == s
  {
  }

  /** A marker line that itself contains ` fun ` is a complete one-line declaration. */
  lemma OneLineDeclaration(s: State, c: string)
    requires IsTestAnnotation(c) && Contains(c, " fun ")
    ensures AddedLine(s, c) == s.(addedTests := s.addedTests + DeclaredTest(c, s.currentFile), addedPending := false)
    ensures RemovedLine(s, c) == s.(removedCount := s.removedCount + 1, removedPending := false)
  {
    OneLineFormIsMarkerWithFun(c);
  }

  /** A marker line followed by a declaration line, on the added side, records the declared test. */
  lemma AddedMarkerThenDeclaration(s: State, marker: string, decl: string)
    requires IsBareMarker(marker) && IsDeclarationLine(decl)
    ensures AddedLine(AddedLine(s, marker), decl)
            == s.(addedTests := s.addedTests + DeclaredTest(decl, s.currentFile), addedPending := false)
  {
    OneLineFormIsMarkerWithFun(marker);
    NoAtNoMarker(decl);
  }

  /** A marker line followed by a declaration line, on the removed side, counts one removal. */
  lemma RemovedMarkerThenDeclaration(s: State, marker: string, decl: string)
    requires IsBareMarker(marker) && IsDeclarationLine(decl)
    ensures RemovedLine(RemovedLine(s, marker), decl)
            == s.(removedCount := s.removedCount + 1, removedPending := false)
  {
    OneLineFormIsMarkerWithFun(marker);
    NoAtNoMarker(decl);
  }

  /** Reading two lines is two steps. */
  lemma Run2(s: State, k1: LineKind, k2: LineKind)
    ensures Run(s, [k1, k2]) == Step(Step(s, k1), k2)
  {
    RunCons(s, k1, [k2]);
    RunCons(Step(s, k1), k2, []);
  }

  /** Reading four lines is four steps. */
  lemma Run4(s: State, k1: LineKind, k2: LineKind, k3: LineKind, k4: LineKind)
    ensures Run(s, [k1, k2, k3, k4]) == Step(Step(Step(Step(s, k1), k2), k3), k4)
  {
    RunAppend(s, [k1, k2], [k3, k4]);
    assert [k1, k2] + [k3, k4] == [k1, k2, k3, k4];
    Run2(s, k1, k2);
    Run2(Step(Step(s, k1), k2), k3, k4);
  }

  /** Reading six lines is six steps. */
  lemma Run6(s: State, k1: LineKind, k2: LineKind, k3: LineKind, k4: LineKind, k5: LineKind, k6: LineKind)
    ensures Run(s, [k1, k2, k3, k4, k5, k6])
            == Step(Step(Step(Step(Step(Step(s, k1), k2), k3), k4), k5), k6)
  {
    RunAppend(s, [k1, k2, k3, k4], [k5, k6]);
    assert [k1, k2, k3, k4] + [k5, k6] == [k1, k2, k3, k4, k5, k6];
    Run4(s, k1, k2, k3, k4);
    Run2(Step(Step(Step(Step(s, k1), k2), k3), k4), k5, k6);
  }

  /** Reading eight lines is eight steps. */
  lemma Run8(s: State, k1: LineKind, k2: LineKind, k3: LineKind, k4: LineKind,
             k5: LineKind, k6: LineKind, k7: LineKind, k8: LineKind)
    ensures Run(s, [k1, k2, k3, k4, k5, k6, k7, k8])
            == Step(Step(Step(Step(Step(Step(Step(Step(s, k1), k2), k3), k4), k5), k6), k7), k8)
  {
    var front, back := [k1, k2, k3, k4], [k5, k6, k7, k8];
    assert front + back == [k1, k2, k3, k4, k5, k6, k7, k8];
    RunAppend(s, front, back);
    Run4(s, k1, k2, k3, k4);
    var mid := Run(s, front);
    Run4(mid, k5, k6, k7, k8);
  }

  /**
   * A hunk that removes one marked declaration and adds one back yields no
   * record, whether the name stays the same (a body-only edit) or changes (a
   * rename): removals cancel additions by count.
   */
  lemma ReplacedDeclarationYieldsNothing(s: State, marker: string, oldDecl: string, newDecl: string)
    requires IsBareMarker(marker) && IsDeclarationLine(oldDecl) && IsDeclarationLine(newDecl)
    ensures Run(s, [HunkHeader, Removed(marker), Removed(oldDecl), Added(marker), Added(newDecl), HunkHeader]).results
            == FlushHunk(s).results
  {
    var s1 := Step(s, HunkHeader);
    var s2 := Step(s1, Removed(marker));
    var s3 := Step(s2, Removed(oldDecl));
    RemovedMarkerThenDeclaration(s1, marker, oldDecl);
    var s4 := Step(s3, Added(marker));
    var s5 := Step(s4, Added(newDecl));
    AddedMarkerThenDeclaration(s3, marker, newDecl);
    assert NetNew(s5) == 0;
    Run6(s, HunkHeader, Removed(marker), Removed(oldDecl), Added(marker), Added(newDecl), HunkHeader);
  }

  /** A hunk that only adds a marked declaration reports it, with the current file. */
  lemma AddedDeclarationIsReported(s: State, marker: string, decl: string, name: string, path: string)
    requires IsBareMarker(marker) && IsDeclarationLine(decl)
    requires ExtractFunctionName(decl) == Some(name) && s.currentFile == Some(path)
    ensures Run(s, [HunkHeader, Added(marker), Added(decl), HunkHeader]).results
            == FlushHunk(s).results + [NewTestInfo(name, path)]
  {
    var s1 := Step(s, HunkHeader);
    var s2 := Step(s1, Added(marker));
    var s3 := Step(s2, Added(decl));
    AddedMarkerThenDeclaration(s1, marker, decl);
    assert s3.addedTests == [NewTestInfo(name, path)];
    Run4(s, HunkHeader, Added(marker), Added(decl), HunkHeader);
  }

  /**
   * One removed and two added declarations in a hunk report only the LAST
   * added one: the flush keeps the surplus from the end of the added list,
   * whatever the names.
   */
  lemma SurplusIsTakenFromTheEnd(s: State, marker: string, removed: string, first: string, second: string,
                                 name1: string, name2: string, path: string)
    requires IsBareMarker(marker) && IsDeclarationLine(removed)
    requires IsDeclarationLine(first) && IsDeclarationLine(second)
    requires ExtractFunctionName(first) == Some(name1) && ExtractFunctionName(second) == Some(name2)
    requires s.currentFile == Some(path)
    ensures Run(s, [HunkHeader, Removed(marker), Removed(removed), Added(marker), Added(first),
                    Added(marker), Added(second), HunkHeader]).results
            == FlushHunk(s).results + [NewTestInfo(name2, path)]
  {
    var s1 := Step(s, HunkHeader);
    var s3 := Step(Step(s1, Removed(marker)), Removed(removed));
    RemovedMarkerThenDeclaration(s1, marker, removed);
    var s5 := Step(Step(s3, Added(marker)), Added(first));
    AddedMarkerThenDeclaration(s3, marker, first);
    var s7 := Step(Step(s5, Added(marker)), Added(second));
    AddedMarkerThenDeclaration(s5, marker, second);
    assert s7.addedTests == [NewTestInfo(name1, path), NewTestInfo(name2, path)];
    assert NetNew(s7) == 1;
    Run8(s, HunkHeader, Removed(marker), Removed(removed), Added(marker), Added(first),
         Added(marker), Added(second), HunkHeader);
  }
}
