/**
 * The handful of Kotlin `String` operations the analyzer relies on:
 * `startsWith`, `contains`, `trim`, `isBlank`, `split(limit)`, `lines()` and
 * `joinToString`.  Characters are treated as ASCII: whitespace is what
 * `Char.isWhitespace` says about the ASCII range.
 */
module Text {

  /** `Char.isWhitespace` on ASCII: TAB, LF, VT, FF, CR, the four separators FS..US, and SPACE. */
  predicate IsWhitespace(c: char) {
    (9 <= c as int <= 13) || (28 <= c as int <= 32)
  }

  /** `s.startsWith(p)`. */
  predicate StartsWith(s: string, p: string) {
    |p| <= |s| && s[..|p|] == p
  }

  /** `p` occurs in `s` starting at index `i`. */
  predicate OccursAt(s: string, p: string, i: nat) {
    i + |p| <= |s| && s[i..i + |p|] == p
  }

  /** `s.contains(p)`. */
  predicate Contains(s: string, p: string) {
    exists i: nat | i <= |s| :: OccursAt(s, p, i)
  }

  /** `s.isBlank()`: every character is whitespace (true of the empty string). */
  predicate IsBlank(s: string) {
    forall i :: 0 <= i < |s| ==> IsWhitespace(s[i])
  }

  /** Drops leading whitespace; what is dropped is all whitespace and what is kept is a suffix. */
  function TrimStart(s: string): (r: string)
    ensures |r| <= |s| && r == s[|s| - |r|..]
    ensures forall i :: 0 <= i < |s| - |r| ==> IsWhitespace(s[i])
    ensures r == [] || !IsWhitespace(r[0])
  {
    if |s| > 0 && IsWhitespace(s[0]) then
      var r := TrimStart(s[1..]);
      assert forall i :: 1 <= i < |s| ==> s[i] == s[1..][i - 1];
      assert s[1..][|s| - 1 - |r|..] == s[|s| - |r|..];
      r
    else s
  }

  /** Drops trailing whitespace; what is dropped is all whitespace and what is kept is a prefix. */
  function TrimEnd(s: string): (r: string)
    ensures |r| <= |s| && r == s[..|r|]
    ensures forall i :: |r| <= i < |s| ==> IsWhitespace(s[i])
    ensures r == [] || !IsWhitespace(r[|r| - 1])
  {
    if |s| > 0 && IsWhitespace(s[|s| - 1]) then
      var r := TrimEnd(s[..|s| - 1]);
      assert forall i :: 0 <= i < |s| - 1 ==> s[i] == s[..|s| - 1][i];
      assert s[..|s| - 1][..|r|] == s[..|r|];
      r
    else s
  }

  /**
   * `r` is the slice `s[a..a + |r|]` and everything of `s` outside that slice
   * is whitespace.
   */
  ghost predicate SliceWithin(s: string, r: string, a: nat) {
    && a + |r| <= |s|
    && r == s[a..a + |r|]
    && (forall i :: 0 <= i < a ==> IsWhitespace(s[i]))
    && (forall i :: a + |r| <= i < |s| ==> IsWhitespace(s[i]))
  }

  /** Where `trim`'s result starts in `s`: after the leading whitespace. */
  function TrimOffset(s: string): nat {
    |s| - |TrimStart(s)|
  }

  /** `s.trim()`: no whitespace at either end of the result. */
  function Trim(s: string): (r: string)
    ensures |r| <= |s|
    ensures r == [] || (!IsWhitespace(r[0]) && !IsWhitespace(r[|r| - 1]))
  {
    TrimEnd(TrimStart(s))
  }

  /** `trim` keeps a slice of `s` and drops only whitespace around it. */
  lemma TrimSlice(s: string)
    ensures SliceWithin(s, Trim(s), TrimOffset(s))
  {
  }

  /** A string that already has no surrounding whitespace is left alone by `trim`. */
  lemma TrimOfTrimmed(s: string)
    requires s == [] || (!IsWhitespace(s[0]) && !IsWhitespace(s[|s| - 1]))
    ensures Trim(s) == s
  {
  }

  /** Whitespace appended after `s` survives the leading trim only when `s` has something to keep. */
  lemma {:induction false} TrimStartSnoc(s: string, c: char)
    requires IsWhitespace(c)
    ensures TrimStart(s + [c]) == if IsBlank(s) then [] else TrimStart(s) + [c]
    decreases |s|
  {
    if |s| > 0 {
      assert (s + [c])[1..] == s[1..] + [c];
      TrimStartSnoc(s[1..], c);
      assert IsBlank(s) <==> IsWhitespace(s[0]) && IsBlank(s[1..]) by {
        assert forall i :: 1 <= i < |s| ==> s[i] == s[1..][i - 1];
      }
    } else {
      assert TrimStart([c]) == TrimStart([c][1..]);
    }
  }

  /**
   * A carriage return at the end of a line makes no difference to `trim`: the
   * CR of a CR LF line ending, which a split at LF alone leaves in the line,
   * is gone from the trimmed content.
   */
  lemma TrimIgnoresTrailingCR(s: string)
    ensures Trim(s + "\r") == Trim(s)
  {
    TrimStartSnoc(s, '\r');
    BlankIffTrimEmpty(s);
    if !IsBlank(s) {
      var t := TrimStart(s);
      assert (t + "\r")[..|t|] == t;
    }
  }

  /** `isBlank` holds exactly when trimming leaves nothing. */
  lemma BlankIffTrimEmpty(s: string)
    ensures IsBlank(s) <==> Trim(s) == []
  {
    var r := Trim(s);
    if r != [] {
      TrimSlice(s);
      var a := TrimOffset(s);
      assert s[a] == r[0];
    }
  }

  /**
   * A string starting with a non-blank character keeps, under `trim`, every
   * character up to the last non-blank one.
   */
  lemma TrimKeepsUpTo(s: string, n: nat, j: nat)
    requires 0 < |s| && !IsWhitespace(s[0])
    requires n <= j < |s| && !IsWhitespace(s[j])
    ensures n < |Trim(s)| && Trim(s)[n] == s[n]
  {
    var r := Trim(s);
    TrimSlice(s);
    var a := TrimOffset(s);
    assert a == 0;
    assert j < |r|;
    assert r[n] == s[a + n];
  }

  /** Trailing whitespace after a trimmed string is all `trim` removes. */
  lemma TrimDropsTrailing(s: string, w: string)
    requires |s| > 0 && !IsWhitespace(s[0]) && !IsWhitespace(s[|s| - 1])
    requires IsBlank(w)
    ensures Trim(s + w) == s
  {
    var x := s + w;
    var r := Trim(x);
    TrimSlice(x);
    var a := TrimOffset(x);
    assert x[0] == s[0];
    assert a == 0;
    assert x[|s| - 1] == s[|s| - 1];
    assert |s| <= |r|;
    assert forall i :: |s| <= i < |x| ==> x[i] == w[i - |s|];
    assert r == x[..|s|] == s;
  }

  /** Index of the first `c` in `s`. */
  function IndexOf(s: string, c: char): (i: nat)
    requires c in s
    ensures i < |s| && s[i] == c && c !in s[..i]
  {
    if s[0] == c then 0 else 1 + IndexOf(s[1..], c)
  }

  /** `parts.joinToString(sep)`. */
  function Join(parts: seq<string>, sep: string): string {
    if |parts| == 0 then []
    else if |parts| == 1 then parts[0]
    else parts[0] + sep + Join(parts[1..], sep)
  }

  /** A join starts with the first part. */
  lemma JoinStartsWithFirst(parts: seq<string>, sep: string)
    requires |parts| > 0
    ensures |parts[0]| <= |Join(parts, sep)| && Join(parts, sep)[..|parts[0]|] == parts[0]
  {
    if |parts| > 1 {
      assert Join(parts, sep) == parts[0] + (sep + Join(parts[1..], sep));
    }
  }

  /** A sequence is what comes before position `i`, the element at `i`, and what comes after. */
  lemma CutAt<T>(s: seq<T>, i: nat)
    requires i < |s|
    ensures s == s[..i] + [s[i]] + s[i + 1..]
  {
  }

  /** A part in front of a non-empty join comes with one separator. */
  lemma JoinCons(a: string, rest: seq<string>, sep: string)
    requires |rest| >= 1
    ensures Join([a] + rest, sep) == a + sep + Join(rest, sep)
  {
    assert ([a] + rest)[1..] == rest;
  }

  /** A join of at least two parts, followed by more text, taken apart at its first separator. */
  lemma JoinUncons(parts: seq<string>, sep: string, close: string)
    requires |parts| > 1
    ensures Join(parts, sep) + close == parts[0] + (sep + (Join(parts[1..], sep) + close))
  {
    var j := Join(parts[1..], sep);
    assert Join(parts, sep) == parts[0] + sep + j;
    assert parts[0] + sep + j + close == parts[0] + (sep + (j + close));
  }

  /** Appending one more part to a non-empty join puts one separator before it. */
  lemma {:induction false} JoinSnoc(parts: seq<string>, x: string, sep: string)
    requires |parts| > 0
    ensures Join(parts + [x], sep) == Join(parts, sep) + sep + x
    decreases |parts|
  {
    if |parts| == 1 {
      assert parts + [x] == [parts[0], x];
    } else {
      assert (parts + [x])[1..] == parts[1..] + [x];
      JoinSnoc(parts[1..], x, sep);
    }
  }

  /**
   * Kotlin's `s.split(sep, limit)` for a one-character delimiter; `limit == 0`
   * means "no limit".  No part but the last holds the delimiter, and the last
   * holds it only when the limit was reached; `SplitJoinsBack` shows nothing
   * is lost.
   */
  function Split(s: string, sep: char, limit: nat): (parts: seq<string>)
    ensures |parts| >= 1
    ensures limit > 0 ==> |parts| <= limit
    ensures forall i :: 0 <= i < |parts| - 1 ==> sep !in parts[i]
    ensures (limit == 0 || |parts| < limit) ==> sep !in parts[|parts| - 1]
    ensures |parts| == 1 <==> (sep !in s || limit == 1)
    decreases |s|
  {
    if limit == 1 || sep !in s then [s]
    else
      var i := IndexOf(s, sep);
      var rest := Split(s[i + 1..], sep, if limit == 0 then 0 else limit - 1);
      var parts := [s[..i]] + rest;
      assert parts[0] == s[..i] && parts[|parts| - 1] == rest[|rest| - 1];
      assert forall j :: 0 < j < |parts| ==> parts[j] == rest[j - 1];
      parts
  }

  /** The parts joined back with the delimiter give the string that was split. */
  lemma {:induction false} SplitJoinsBack(s: string, sep: char, limit: nat)
    ensures Join(Split(s, sep, limit), [sep]) == s
    decreases |s|
  {
    if limit != 1 && sep in s {
      var i := IndexOf(s, sep);
      var next := if limit == 0 then 0 else limit - 1;
      var rest := Split(s[i + 1..], sep, next);
      calc {
        Join(Split(s, sep, limit), [sep]);
        Join([s[..i]] + rest, [sep]);
        { JoinCons(s[..i], rest, [sep]); }
        s[..i] + [sep] + Join(rest, [sep]);
        { SplitJoinsBack(s[i + 1..], sep, next); }
        s[..i] + [sep] + s[i + 1..];
        { CutAt(s, i); }
        s;
      }
    } else {
      assert Split(s, sep, limit) == [s];
    }
  }

  /** `s.lines()`, splitting at line feeds. */
  function Lines(s: string): (ls: seq<string>)
    ensures |ls| >= 1
    ensures forall i :: 0 <= i < |ls| ==> '\n' !in ls[i]
  {
    Split(s, '\n', 0)
  }

  /** The lines joined back with LF give the text. */
  lemma LinesJoinBack(s: string)
    ensures Join(Lines(s), "\n") == s
  {
    SplitJoinsBack(s, '\n', 0);
  }

  /** The first delimiter after a delimiter-free prefix is the one right after it. */
  lemma {:induction false} IndexOfAfter(a: string, sep: char, b: string)
    requires sep !in a
    ensures sep in a + [sep] + b && IndexOf(a + [sep] + b, sep) == |a|
    decreases |a|
  {
    var s := a + [sep] + b;
    assert s[|a|] == sep;
    if |a| > 0 {
      assert s[0] == a[0] && s[1..] == a[1..] + [sep] + b;
      IndexOfAfter(a[1..], sep, b);
    }
  }

  /** Splitting without a limit undoes joining parts that do not contain the delimiter. */
  lemma {:induction false} SplitJoin(parts: seq<string>, sep: char)
    requires |parts| >= 1
    requires forall i :: 0 <= i < |parts| ==> sep !in parts[i]
    ensures Split(Join(parts, [sep]), sep, 0) == parts
    decreases |parts|
  {
    var s := Join(parts, [sep]);
    if |parts| == 1 {
      assert s == parts[0];
    } else {
      var rest := Join(parts[1..], [sep]);
      assert s == parts[0] + [sep] + rest;
      SplitFirst(parts[0], sep, rest, 0);
      assert forall i :: 0 <= i < |parts| - 1 ==> parts[1..][i] == parts[i + 1];
      SplitJoin(parts[1..], sep);
      assert parts == [parts[0]] + parts[1..];
    }
  }

  /** Splitting at a delimiter preceded by a delimiter-free prefix cuts that prefix off first. */
  lemma SplitFirst(a: string, sep: char, b: string, limit: nat)
    requires sep !in a && limit != 1
    ensures Split(a + [sep] + b, sep, limit) == [a] + Split(b, sep, if limit == 0 then 0 else limit - 1)
  {
    var s := a + [sep] + b;
    IndexOfAfter(a, sep, b);
    assert s[..|a|] == a && s[|a| + 1..] == b;
  }

  /** A three-way split happens exactly when there is a second delimiter after the first. */
  lemma SplitThree(s: string, sep: char)
    ensures |Split(s, sep, 3)| == 3 <==> sep in s && sep in s[IndexOf(s, sep) + 1..]
  {
    if sep in s {
      var i := IndexOf(s, sep);
      assert |Split(s, sep, 3)| == 1 + |Split(s[i + 1..], sep, 2)|;
    }
  }

  /** Three parts joined. */
  lemma JoinThree(a: string, b: string, c: string, sep: string)
    ensures Join([a, b, c], sep) == a + sep + b + sep + c
  {
    assert [a, b, c][1..] == [b, c] && [b, c][1..] == [c];
    assert Join([b, c], sep) == b + sep + c;
    assert a + sep + (b + sep + c) == a + sep + b + sep + c;
  }

  /** `trim` cannot introduce a character that was not there. */
  lemma TrimKeepsAbsent(s: string, c: char)
    requires c !in s
    ensures c !in Trim(s)
  {
    var r := Trim(s);
    TrimSlice(s);
    var a := TrimOffset(s);
    forall k | 0 <= k < |r|
      ensures r[k] != c
    {
      assert r[k] == s[a + k];
    }
  }

  /** Every part of a blank join is blank. */
  lemma {:induction false} JoinOfBlank(parts: seq<string>, sep: string)
    requires IsBlank(Join(parts, sep))
    ensures forall i :: 0 <= i < |parts| ==> IsBlank(parts[i])
    decreases |parts|
  {
    if |parts| > 1 {
      var rest := Join(parts[1..], sep);
      var whole := Join(parts, sep);
      assert whole == parts[0] + sep + rest;
      assert IsBlank(parts[0]) by {
        forall k | 0 <= k < |parts[0]|
          ensures IsWhitespace(parts[0][k])
        {
          assert parts[0][k] == whole[k];
        }
      }
      assert IsBlank(rest) by {
        forall k | 0 <= k < |rest|
          ensures IsWhitespace(rest[k])
        {
          assert rest[k] == whole[|parts[0]| + |sep| + k];
        }
      }
      JoinOfBlank(parts[1..], sep);
      assert forall i :: 1 <= i < |parts| ==> parts[i] == parts[1..][i - 1];
    }
  }
}
