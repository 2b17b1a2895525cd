/**
 * The function-name extractor shared by both test parsers: group 1 of the
 * first match of the regular expression  fun\s+(`[^`]+`|\w+)\s*\(  found
 * anywhere in a trimmed diff line.
 *
 * `MatchAtStart` is the matcher run at one position; it is shown equal to the
 * declarative reading of the pattern (`RegexMatch`), including the fact that
 * backtracking can never produce a second, different group 1.
 */
module FunName {
  import opened Wrappers
  import opened Text

  /** `\s` of java.util.regex: SPACE, TAB, LF, VT, FF, CR. */
  predicate IsRegexSpace(c: char) {
    c == ' ' || (9 <= c as int <= 13)
  }

  /** `\w` of java.util.regex: ASCII letters, digits and underscore. */
  predicate IsWordChar(c: char) {
    ('a' <= c <= 'z') || ('A' <= c <= 'Z') || ('0' <= c <= '9') || c == '_'
  }

  /** First index at or after `i` that is not `\s`, or `|s|`. */
  function SkipSpaces(s: string, i: nat): (j: nat)
    requires i <= |s|
    ensures i <= j <= |s|
    ensures forall k :: i <= k < j ==> IsRegexSpace(s[k])
    ensures j == |s| || !IsRegexSpace(s[j])
    decreases |s| - i
  {
    if i < |s| && IsRegexSpace(s[i]) then SkipSpaces(s, i + 1) else i
  }

  /** First index at or after `i` that is not `\w`, or `|s|`. */
  function WordEnd(s: string, i: nat): (j: nat)
    requires i <= |s|
    ensures i <= j <= |s|
    ensures forall k :: i <= k < j ==> IsWordChar(s[k])
    ensures j == |s| || !IsWordChar(s[j])
    decreases |s| - i
  {
    if i < |s| && IsWordChar(s[i]) then WordEnd(s, i + 1) else i
  }

  /** First index at or after `i` holding a backtick, or `|s|`. */
  function BacktickFrom(s: string, i: nat): (j: nat)
    requires i <= |s|
    ensures i <= j <= |s|
    ensures forall k :: i <= k < j ==> s[k] != '`'
    ensures j == |s| || s[j] == '`'
    decreases |s| - i
  {
    if i < |s| && s[i] != '`' then BacktickFrom(s, i + 1) else i
  }

  /** The group `(`[^`]+`|\w+)`: a quoted name keeps its backticks. */
  ghost predicate IsName(w: string) {
    || (|w| >= 3 && w[0] == '`' && w[|w| - 1] == '`' && forall i :: 0 < i < |w| - 1 ==> w[i] != '`')
    || (|w| >= 1 && forall i :: 0 <= i < |w| ==> IsWordChar(w[i]))
  }

  /**
   * The pattern matches at the start of `t` with the group spanning `t[k..e]`
   * and the opening parenthesis at `p`.
   */
  ghost predicate RegexMatch(t: string, k: nat, e: nat, p: nat) {
    && 3 < k <= e <= p < |t|
    && t[..3] == "fun"
    && (forall i :: 3 <= i < k ==> IsRegexSpace(t[i]))
    && IsName(t[k..e])
    && (forall i :: e <= i < p ==> IsRegexSpace(t[i]))
    && t[p] == '('
  }

  /** The pattern tried at the very start of `t`, as a backtracking matcher would settle it. */
  function MatchAtStart(t: string): (r: Option<string>)
  {
    if !StartsWith(t, "fun") then None
    else
      var k := SkipSpaces(t, 3);
      if k == 3 || k == |t| then None
      else if t[k] == '`' then
        var c := BacktickFrom(t, k + 1);
        if c == |t| || c == k + 1 then None
        else CloseParen(t, k, c + 1)
      else
        var e := WordEnd(t, k);
        if e == k then None else CloseParen(t, k, e)
  }

  /** `\s*\(` after the group `t[k..e]`. */
  function CloseParen(t: string, k: nat, e: nat): (r: Option<string>)
    requires k <= e <= |t|
    ensures r.Some? ==> r.value == t[k..e]
  {
    var p := SkipSpaces(t, e);
    if p < |t| && t[p] == '(' then Some(t[k..e]) else None
  }

  /** Whatever `MatchAtStart` returns is a genuine match of the pattern. */
  lemma MatchAtStartSound(t: string)
    requires MatchAtStart(t).Some?
    ensures exists k: nat, e: nat, p: nat :: RegexMatch(t, k, e, p) && MatchAtStart(t).value == t[k..e]
  {
    var k := SkipSpaces(t, 3);
    var e := if t[k] == '`' then BacktickFrom(t, k + 1) + 1 else WordEnd(t, k);
    var p := SkipSpaces(t, e);
    assert RegexMatch(t, k, e, p);
  }

  /**
   * Every way the pattern can match at the start of `t` yields the group
   * `MatchAtStart` returns: the match, and with it the name, is unique.
   */
  lemma MatchAtStartComplete(t: string, k: nat, e: nat, p: nat)
    requires RegexMatch(t, k, e, p)
    ensures MatchAtStart(t) == Some(t[k..e])
  {
    assert StartsWith(t, "fun");
    var w := t[k..e];
    assert w[0] == t[k];
    assert !IsRegexSpace(t[k]);
    assert SkipSpaces(t, 3) == k;
    if t[k] == '`' {
      assert !IsWordChar(w[0]);
      var c := BacktickFrom(t, k + 1);
      assert t[e - 1] == w[|w| - 1];
      assert forall i :: k < i < e - 1 ==> t[i] == w[i - k];
      assert c == e - 1;
    } else {
      assert forall i :: k <= i < e ==> t[i] == w[i - k];
      assert e == p || IsRegexSpace(t[e]);
      assert WordEnd(t, k) == e;
    }
    assert SkipSpaces(t, e) == p;
  }

  /**
   * `extractFunctionName`: the group of the leftmost position where the
   * pattern matches, or None when it matches nowhere.
   */
  function ExtractFunctionName(s: string): (r: Option<string>)
    decreases |s|
  {
    match MatchAtStart(s)
    case Some(n) => Some(n)
    case None => if |s| == 0 then None else ExtractFunctionName(s[1..])
  }

  /** Dropping the first character shifts every later position by one. */
  lemma ShiftedSuffix(s: string, j: nat)
    requires 1 <= j <= |s|
    ensures s[j..] == s[1..][j - 1..]
  {
  }

  /** The extractor returns the result of the first position where `MatchAtStart` succeeds. */
  lemma {:induction false} FirstSomeIsExtracted(s: string, i: nat)
    requires i <= |s| && MatchAtStart(s[i..]).Some?
    requires forall j :: 0 <= j < i ==> MatchAtStart(s[j..]).None?
    ensures ExtractFunctionName(s) == MatchAtStart(s[i..])
    decreases i
  {
    assert s[0..] == s;
    if i > 0 {
      assert MatchAtStart(s[0..]).None?;
      forall j | 0 <= j < i - 1
        ensures MatchAtStart(s[1..][j..]).None?
      {
        ShiftedSuffix(s, j + 1);
        assert MatchAtStart(s[j + 1..]).None?;
      }
      ShiftedSuffix(s, i);
      FirstSomeIsExtracted(s[1..], i - 1);
    }
  }

  /** When the extractor finds nothing, `MatchAtStart` fails at every position. */
  lemma {:induction false} ExtractNoneFailsEverywhere(s: string, i: nat)
    requires ExtractFunctionName(s).None? && i <= |s|
    ensures MatchAtStart(s[i..]).None?
    decreases i
  {
    assert s[0..] == s;
    if i > 0 {
      ShiftedSuffix(s, i);
      ExtractNoneFailsEverywhere(s[1..], i - 1);
    }
  }

  /** When the extractor finds a name, some position yields it and no earlier one matches. */
  lemma {:induction false} ExtractSomeHasFirstPosition(s: string) returns (i: nat)
    requires ExtractFunctionName(s).Some?
    ensures i <= |s| && MatchAtStart(s[i..]) == ExtractFunctionName(s)
    ensures forall j :: 0 <= j < i ==> MatchAtStart(s[j..]).None?
    decreases |s|
  {
    assert s[0..] == s;
    if MatchAtStart(s).Some? {
      i := 0;
    } else {
      var i' := ExtractSomeHasFirstPosition(s[1..]);
      i := i' + 1;
      ShiftedSuffix(s, i);
      forall j | 0 <= j < i
        ensures MatchAtStart(s[j..]).None?
      {
        if j > 0 {
          ShiftedSuffix(s, j);
          assert MatchAtStart(s[1..][j - 1..]).None?;
        }
      }
    }
  }

  /**
   * When the pattern first matches at position `i` of `s`, the extractor
   * returns that match's group.
   */
  lemma ExtractIsLeftmostMatch(s: string, i: nat, k: nat, e: nat, p: nat)
    requires i <= |s| && RegexMatch(s[i..], k, e, p)
    requires forall j: nat, k': nat, e': nat, p': nat :: j < i ==> !RegexMatch(s[j..], k', e', p')
    ensures i + e <= |s| && ExtractFunctionName(s) == Some(s[i + k..i + e])
  {
    NoEarlierMatch(s, i);
    FirstMatchIsExtracted(s, i, k, e, p);
  }

  /** A match at `i`, with `MatchAtStart` failing before it, is what the extractor returns. */
  lemma FirstMatchIsExtracted(s: string, i: nat, k: nat, e: nat, p: nat)
    requires i <= |s| && RegexMatch(s[i..], k, e, p)
    requires forall j :: 0 <= j < i ==> MatchAtStart(s[j..]).None?
    ensures i + e <= |s| && ExtractFunctionName(s) == Some(s[i + k..i + e])
  {
    MatchAtStartComplete(s[i..], k, e, p);
    FirstSomeIsExtracted(s, i);
    assert s[i..][k..e] == s[i + k..i + e];
  }

  /** Before the first match position `MatchAtStart` fails everywhere. */
  lemma NoEarlierMatch(s: string, i: nat)
    requires i <= |s|
    requires forall j: nat, k': nat, e': nat, p': nat :: j < i ==> !RegexMatch(s[j..], k', e', p')
    ensures forall j :: 0 <= j < i ==> MatchAtStart(s[j..]).None?
  {
    forall j | 0 <= j < i
      ensures MatchAtStart(s[j..]).None?
    {
      NoMatchAtStart(s[j..]);
    }
  }

  /** Where the pattern cannot match, `MatchAtStart` returns None. */
  lemma NoMatchAtStart(t: string)
    requires forall k: nat, e: nat, p: nat :: !RegexMatch(t, k, e, p)
    ensures MatchAtStart(t).None?
  {
    if MatchAtStart(t).Some? {
      MatchAtStartSound(t);
    }
  }

  /** The extractor finds nothing exactly when the pattern matches nowhere in `s`. */
  lemma ExtractNoneIffNoMatch(s: string)
    ensures ExtractFunctionName(s).None? <==>
            forall i: nat, k: nat, e: nat, p: nat :: i <= |s| ==> !RegexMatch(s[i..], k, e, p)
  {
    if ExtractFunctionName(s).None? {
      forall i: nat, k: nat, e: nat, p: nat | i <= |s|
        ensures !RegexMatch(s[i..], k, e, p)
      {
        ExtractNoneFailsEverywhere(s, i);
        if RegexMatch(s[i..], k, e, p) {
          MatchAtStartComplete(s[i..], k, e, p);
        }
      }
    } else {
      var i := ExtractSomeHasFirstPosition(s);
      MatchAtStartSound(s[i..]);
    }
  }

  /**
   * Text before the first `fun` is irrelevant: modifiers such as `internal`,
   * `suspend` or `protected open` in front of the keyword do not change the
   * extracted name.
   */
  lemma {:induction false} ExtractSkipsPrefix(pre: string, s: string)
    requires forall i :: 0 <= i < |pre| ==> !StartsWith((pre + s)[i..], "fun")
    ensures ExtractFunctionName(pre + s) == ExtractFunctionName(s)
    decreases |pre|
  {
    if pre == [] {
      assert pre + s == s;
    } else {
      assert (pre + s)[0..] == pre + s;
      assert (pre + s)[1..] == pre[1..] + s;
      forall i | 0 <= i < |pre[1..]|
        ensures !StartsWith((pre[1..] + s)[i..], "fun")
      {
        assert (pre[1..] + s)[i..] == (pre + s)[i + 1..];
      }
      ExtractSkipsPrefix(pre[1..], s);
    }
  }

  /** `fun name(` with a plain identifier yields that identifier. */
  lemma PlainDeclarationName(name: string, rest: string)
    requires |name| >= 1 && forall i :: 0 <= i < |name| ==> IsWordChar(name[i])
    ensures ExtractFunctionName("fun " + name + "(" + rest) == Some(name)
  {
    var t := "fun " + name + "(" + rest;
    assert t[4..4 + |name|] == name;
    assert RegexMatch(t[0..], 4, 4 + |name|, 4 + |name|);
    ExtractIsLeftmostMatch(t, 0, 4, 4 + |name|, 4 + |name|);
  }

  /** A backtick-quoted name is returned with its backticks. */
  lemma QuotedDeclarationName(body: string, rest: string)
    requires |body| >= 1 && '`' !in body
    ensures ExtractFunctionName("fun `" + body + "`(" + rest) == Some("`" + body + "`")
  {
    var t := "fun `" + body + "`(" + rest;
    var w := "`" + body + "`";
    assert t[4..6 + |body|] == w;
    assert forall i :: 0 < i < |w| - 1 ==> w[i] == body[i - 1];
    assert RegexMatch(t[0..], 4, 6 + |body|, 6 + |body|);
    ExtractIsLeftmostMatch(t, 0, 4, 6 + |body|, 6 + |body|);
  }
}
