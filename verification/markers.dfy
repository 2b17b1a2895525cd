/**
 * The line tests both parsers apply to the trimmed content of a diff line:
 * `isTestAnnotation`, `hasTestAnnotationAndFun` and `containsFunDeclaration`.
 * Both parser files define them identically.
 */
module Markers {
  import opened Text
  import opened FunName

  /** `testAnnotations`: the annotations that mark a JUnit test function. */
  const TestMarkers: seq<string> := ["@Test", "@ParameterizedTest", "@RepeatedTest"]

  /** A character allowed directly after a marker: `(`, SPACE or TAB. */
  predicate IsMarkerFollower(c: char) {
    c == '(' || c == ' ' || c == '\t'
  }

  /** `content` begins with marker `m` and `m` is not the start of a longer name. */
  predicate MarkedBy(content: string, m: string) {
    StartsWith(content, m) && (|content| == |m| || IsMarkerFollower(content[|m|]))
  }

  /** `isTestAnnotation`: some marker begins the line and is not continued by more of a name. */
  predicate IsTestAnnotation(content: string) {
    exists i | 0 <= i < |TestMarkers| :: MarkedBy(content, TestMarkers[i])
  }

  /** `hasTestAnnotationAndFun`: a marker with something after it, on a line containing ` fun `. */
  predicate HasTestAnnotationAndFun(content: string) {
    exists i | 0 <= i < |TestMarkers| ::
      && StartsWith(content, TestMarkers[i])
      && |content| > |TestMarkers[i]|
      && IsMarkerFollower(content[|TestMarkers[i]|])
      && Contains(content, " fun ")
  }

  /** `containsFunDeclaration`. */
  predicate ContainsFunDeclaration(content: string) {
    StartsWith(content, "fun ") || Contains(content, " fun ")
  }

  /** No marker is a prefix of another, so a line begins with at most one of them. */
  lemma AtMostOneMarkerPrefix(content: string, i: nat, j: nat)
    requires i < |TestMarkers| && j < |TestMarkers|
    requires StartsWith(content, TestMarkers[i]) && StartsWith(content, TestMarkers[j])
    ensures i == j
  {
    assert content[1] == TestMarkers[i][1] == TestMarkers[j][1];
  }

  /**
   * A marker name continued by a letter, digit or underscore is a different
   * annotation and never marks a test: `@TestFactory`, `@TestTemplate`,
   * `@TestMethodOrder` and the like.
   */
  lemma ContinuedMarkerIsNotATest(content: string, i: nat)
    requires i < |TestMarkers| && StartsWith(content, TestMarkers[i])
    requires |content| > |TestMarkers[i]| && IsWordChar(content[|TestMarkers[i]|])
    ensures !IsTestAnnotation(content) && !HasTestAnnotationAndFun(content)
  {
    forall j | 0 <= j < |TestMarkers| && StartsWith(content, TestMarkers[j])
      ensures j == i
    {
      AtMostOneMarkerPrefix(content, i, j);
    }
  }

  /** The look-alike JUnit annotations named in the analyzer's own tests do not mark tests. */
  lemma LookalikeAnnotations(rest: string)
    ensures !IsTestAnnotation("@TestFactory" + rest) && !HasTestAnnotationAndFun("@TestFactory" + rest)
    ensures !IsTestAnnotation("@TestTemplate" + rest) && !HasTestAnnotationAndFun("@TestTemplate" + rest)
    ensures !IsTestAnnotation("@TestMethodOrder" + rest) && !HasTestAnnotationAndFun("@TestMethodOrder" + rest)
  {
    assert ("@TestFactory" + rest)[..5] == "@Test";
    ContinuedMarkerIsNotATest("@TestFactory" + rest, 0);
    assert ("@TestTemplate" + rest)[..5] == "@Test";
    ContinuedMarkerIsNotATest("@TestTemplate" + rest, 0);
    assert ("@TestMethodOrder" + rest)[..5] == "@Test";
    ContinuedMarkerIsNotATest("@TestMethodOrder" + rest, 0);
  }

  /** Each marker alone, or followed by `(`, SPACE or TAB, marks a test. */
  lemma MarkersMark(i: nat, rest: string)
    requires i < |TestMarkers|
    ensures IsTestAnnotation(TestMarkers[i])
    ensures IsTestAnnotation(TestMarkers[i] + "(" + rest)
    ensures IsTestAnnotation(TestMarkers[i] + " " + rest)
    ensures IsTestAnnotation(TestMarkers[i] + "\t" + rest)
  {
    var m := TestMarkers[i];
    assert MarkedBy(m, m);
    assert (m + "(" + rest)[..|m|] == m && (m + "(" + rest)[|m|] == '(';
    assert MarkedBy(m + "(" + rest, m);
    assert (m + " " + rest)[..|m|] == m && (m + " " + rest)[|m|] == ' ';
    assert MarkedBy(m + " " + rest, m);
    assert (m + "\t" + rest)[..|m|] == m && (m + "\t" + rest)[|m|] == '\t';
    assert MarkedBy(m + "\t" + rest, m);
  }

  /** A marker contains no SPACE, so a bare marker never contains ` fun `. */
  lemma BareMarkerHasNoFun(i: nat)
    requires i < |TestMarkers|
    ensures !Contains(TestMarkers[i], " fun ")
  {
    var m := TestMarkers[i];
    forall k: nat | k <= |m|
      ensures !OccursAt(m, " fun ", k)
    {
      if k + 5 <= |m| {
        assert m[k..k + 5][0] == m[k] != ' ';
      }
    }
  }

  /**
   * The one-line form `@Test fun name()` is exactly a marker line that also
   * contains ` fun `.
   */
  lemma OneLineFormIsMarkerWithFun(content: string)
    ensures HasTestAnnotationAndFun(content) <==> IsTestAnnotation(content) && Contains(content, " fun ")
  {
    if IsTestAnnotation(content) && Contains(content, " fun ") {
      var i :| 0 <= i < |TestMarkers| && MarkedBy(content, TestMarkers[i]);
      if |content| == |TestMarkers[i]| {
        assert content == TestMarkers[i];
        BareMarkerHasNoFun(i);
      }
    }
  }

  /** Every marker line, and so every one-line declaration, begins with `@`. */
  lemma MarkerLineStartsWithAt(content: string)
    requires IsTestAnnotation(content) || HasTestAnnotationAndFun(content)
    ensures StartsWith(content, "@")
  {
    var i :| 0 <= i < |TestMarkers| && StartsWith(content, TestMarkers[i]);
    assert content[0] == TestMarkers[i][0];
  }

  /** A line that does not begin with `@` is neither a marker line nor a one-line declaration. */
  lemma NoAtNoMarker(content: string)
    requires !StartsWith(content, "@")
    ensures !IsTestAnnotation(content) && !HasTestAnnotationAndFun(content)
  {
    forall i | 0 <= i < |TestMarkers|
      ensures !StartsWith(content, TestMarkers[i])
    {
      if |TestMarkers[i]| <= |content| {
        assert content[..|TestMarkers[i]|][0] == content[0];
        assert content[..1] == [content[0]];
      }
    }
  }

  /** A marker line on its own: marks a test and is not itself a declaration. */
  predicate IsBareMarker(content: string) {
    IsTestAnnotation(content) && !Contains(content, " fun ")
  }

  /** A declaration line that can follow a marker: has the `fun` keyword and no leading `@`. */
  predicate IsDeclarationLine(content: string) {
    ContainsFunDeclaration(content) && !StartsWith(content, "@")
  }

  /** Blank content cannot hold a `fun` keyword. */
  lemma BlankHasNoFun(c: string)
    requires IsBlank(c)
    ensures !ContainsFunDeclaration(c)
  {
    if |c| >= 4 {
      assert c[..4][0] == c[0] && IsWhitespace(c[0]);
    }
    assert |" fun "| == 5;
    forall i: nat | i <= |c|
      ensures !OccursAt(c, " fun ", i)
    {
      if i + 5 <= |c| {
        assert c[i..i + 5][1] == c[i + 1] && IsWhitespace(c[i + 1]);
      }
    }
  }

}
