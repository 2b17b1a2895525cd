/**
 * The two escapers of the HTML report generator.  `escapeJson` makes a value
 * safe inside a JSON string literal in the report's `<script>` block;
 * `escapeHtml` makes it safe as HTML text or attribute value.  Each is a
 * chain of `String.replace` calls; each is shown equal to a per-character
 * escape, and its properties are proved of that form.
 */
module Escaping {
  import opened Wrappers
  import opened Text

  /** `s.replace(c.toString(), rep)`: every occurrence of `c`, left to right, becomes `rep`. */
  function ReplaceChar(s: string, c: char, rep: string): (r: string)
    ensures c !in s ==> r == s
  {
    if |s| == 0 then [] else (if s[0] == c then rep else [s[0]]) + ReplaceChar(s[1..], c, rep)
  }

  /** Replacing in a concatenation replaces in each part. */
  lemma {:induction false} ReplaceAppend(a: string, b: string, c: char, rep: string)
    ensures ReplaceChar(a + b, c, rep) == ReplaceChar(a, c, rep) + ReplaceChar(b, c, rep)
    decreases |a|
  {
    if |a| == 0 {
      assert a + b == b;
    } else {
      assert (a + b)[0] == a[0] && (a + b)[1..] == a[1..] + b;
      ReplaceAppend(a[1..], b, c, rep);
    }
  }

  /** `f` applied to every character, the results concatenated in order. */
  function ConcatMap(f: char -> string, s: string): string {
    if |s| == 0 then [] else f(s[0]) + ConcatMap(f, s[1..])
  }

  /** Mapping a concatenation maps each part. */
  lemma {:induction false} ConcatMapAppend(f: char -> string, a: string, b: string)
    ensures ConcatMap(f, a + b) == ConcatMap(f, a) + ConcatMap(f, b)
    decreases |a|
  {
    if |a| == 0 {
      assert a + b == b;
    } else {
      assert (a + b)[0] == a[0] && (a + b)[1..] == a[1..] + b;
      ConcatMapAppend(f, a[1..], b);
    }
  }

  /** Number of characters of `s` satisfying `p`. */
  function Count(s: string, p: char -> bool): nat {
    if |s| == 0 then 0 else (if p(s[0]) then 1 else 0) + Count(s[1..], p)
  }

  // ---------------------------------------------------------------- escapeJson

  /** `escapeJson`: backslash first, then quote, LF, CR, TAB and slash. */
  function EscapeJson(value: string): string {
    var a := ReplaceChar(value, '\\', "\\\\");
    var b := ReplaceChar(a, '\"', "\\\"");
    var c := ReplaceChar(b, '\n', "\\n");
    var d := ReplaceChar(c, '\r', "\\r");
    var e := ReplaceChar(d, '\t', "\\t");
    ReplaceChar(e, '/', "\\/")
  }

  /** The six characters `escapeJson` rewrites. */
  predicate IsJsonEscaped(c: char) {
    c == '\\' || c == '\"' || c == '\n' || c == '\r' || c == '\t' || c == '/'
  }

  /** What `escapeJson` makes of one character: a two-character escape for the six, else itself. */
  function JsonEscapeChar(c: char): (r: string)
    ensures |r| == if IsJsonEscaped(c) then 2 else 1
    ensures IsJsonEscaped(c) ==> r[0] == '\\'
    ensures !IsJsonEscaped(c) ==> r == [c]
  {
    if c == '\\' then "\\\\"
    else if c == '\"' then "\\\""
    else if c == '\n' then "\\n"
    else if c == '\r' then "\\r"
    else if c == '\t' then "\\t"
    else if c == '/' then "\\/"
    else [c]
  }

  /** The chain of replacements distributes over concatenation. */
  lemma EscapeJsonAppend(x: string, y: string)
    ensures EscapeJson(x + y) == EscapeJson(x) + EscapeJson(y)
  {
    ReplaceAppend(x, y, '\\', "\\\\");
    var a1, a2 := ReplaceChar(x, '\\', "\\\\"), ReplaceChar(y, '\\', "\\\\");
    ReplaceAppend(a1, a2, '\"', "\\\"");
    var b1, b2 := ReplaceChar(a1, '\"', "\\\""), ReplaceChar(a2, '\"', "\\\"");
    ReplaceAppend(b1, b2, '\n', "\\n");
    var c1, c2 := ReplaceChar(b1, '\n', "\\n"), ReplaceChar(b2, '\n', "\\n");
    ReplaceAppend(c1, c2, '\r', "\\r");
    var d1, d2 := ReplaceChar(c1, '\r', "\\r"), ReplaceChar(c2, '\r', "\\r");
    ReplaceAppend(d1, d2, '\t', "\\t");
    var e1, e2 := ReplaceChar(d1, '\t', "\\t"), ReplaceChar(d2, '\t', "\\t");
    ReplaceAppend(e1, e2, '/', "\\/");
  }

  /**
   * On one character the chain produces exactly that character's escape:
   * because the backslash is replaced first, the backslashes introduced by
   * later replacements are never escaped again.
   */
  lemma EscapeJsonChar(c: char)
    ensures EscapeJson([c]) == JsonEscapeChar(c)
  {
    if !IsJsonEscaped(c) {
      assert '\\' !in [c] && '\"' !in [c] && '\n' !in [c] && '\r' !in [c] && '\t' !in [c] && '/' !in [c];
    } else if c == '\\' || c == '\"' || c == '\n' {
      EscapeJsonEarly(c);
    } else {
      EscapeJsonLate(c);
    }
  }

  /** The backslash, the quote and the line feed. */
  lemma EscapeJsonEarly(c: char)
    requires c == '\\' || c == '\"' || c == '\n'
    ensures EscapeJson([c]) == JsonEscapeChar(c)
  {
  }

  /** The carriage return, the tab and the slash. */
  lemma EscapeJsonLate(c: char)
    requires c == '\r' || c == '\t' || c == '/'
    ensures EscapeJson([c]) == JsonEscapeChar(c)
  {
  }

  /** `escapeJson` escapes each character independently. */
  lemma {:induction false} EscapeJsonIsPerChar(s: string)
    ensures EscapeJson(s) == ConcatMap(JsonEscapeChar, s)
    decreases |s|
  {
    if |s| > 0 {
      assert s == [s[0]] + s[1..];
      EscapeJsonAppend([s[0]], s[1..]);
      EscapeJsonChar(s[0]);
      EscapeJsonIsPerChar(s[1..]);
    }
  }

  /** `escapeJson` adds one character for each of the six characters it rewrites. */
  lemma {:induction false} EscapeJsonLength(s: string)
    ensures |EscapeJson(s)| == |s| + Count(s, IsJsonEscaped)
    decreases |s|
  {
    EscapeJsonIsPerChar(s);
    if |s| > 0 {
      EscapeJsonLength(s[1..]);
      EscapeJsonIsPerChar(s[1..]);
    }
  }

  /** Characters in the escape of one character. */
  lemma JsonEscapeCharMembers(c: char, x: char)
    requires x in JsonEscapeChar(c)
    ensures x == c || x == '\\' || x == '\"' || x == 'n' || x == 'r' || x == 't' || x == '/'
  {
  }

  /** Every character of a per-character escape comes from the escape of some input character. */
  lemma {:induction false} ConcatMapMembers(f: char -> string, s: string, x: char)
    requires x in ConcatMap(f, s)
    ensures exists i :: 0 <= i < |s| && x in f(s[i])
    decreases |s|
  {
    if x !in f(s[0]) {
      ConcatMapMembers(f, s[1..], x);
      var i :| 0 <= i < |s[1..]| && x in f(s[1..][i]);
      assert s[1..][i] == s[i + 1];
    }
  }

  /** The output of `escapeJson` holds no raw line feed, carriage return or tab. */
  lemma EscapeJsonNoRawBreaks(s: string)
    ensures '\n' !in EscapeJson(s) && '\r' !in EscapeJson(s) && '\t' !in EscapeJson(s)
  {
    EscapeJsonIsPerChar(s);
    forall x | x in EscapeJson(s)
      ensures x != '\n' && x != '\r' && x != '\t'
    {
      ConcatMapMembers(JsonEscapeChar, s, x);
      var i :| 0 <= i < |s| && x in JsonEscapeChar(s[i]);
      JsonEscapeCharMembers(s[i], x);
    }
  }

  /** Every `/` in `t` directly follows a backslash. */
  predicate SlashesEscaped(t: string) {
    forall i :: 0 <= i < |t| && t[i] == '/' ==> 0 < i && t[i - 1] == '\\'
  }

  /** The escape of a whole string never starts with `/`, and every `/` in it is escaped. */
  lemma {:induction false} EscapedSlashes(s: string)
    ensures SlashesEscaped(ConcatMap(JsonEscapeChar, s))
    ensures |ConcatMap(JsonEscapeChar, s)| > 0 ==> ConcatMap(JsonEscapeChar, s)[0] != '/'
    decreases |s|
  {
    if |s| > 0 {
      EscapedSlashes(s[1..]);
      var head, tail := JsonEscapeChar(s[0]), ConcatMap(JsonEscapeChar, s[1..]);
      var t := head + tail;
      forall i | 0 <= i < |t| && t[i] == '/'
        ensures 0 < i && t[i - 1] == '\\'
      {
        if i >= |head| {
          assert t[i] == tail[i - |head|];
          if i > |head| {
            assert t[i - 1] == tail[i - 1 - |head|];
          }
        }
      }
    }
  }

  /**
   * The output of `escapeJson` never contains `</`, so a value cannot close
   * the `<script>` element the report embeds its data in.
   */
  lemma EscapeJsonNoClosingTag(s: string)
    ensures !Contains(EscapeJson(s), "</")
  {
    EscapeJsonIsPerChar(s);
    var t := EscapeJson(s);
    EscapedSlashes(s);
    forall i: nat | i <= |t|
      ensures !OccursAt(t, "</", i)
    {
      if i + 2 <= |t| {
        var w := t[i..i + 2];
        assert w[0] == t[i] && w[1] == t[i + 1];
        if t[i + 1] == '/' {
          assert t[i] == '\\';
        }
        assert "</"[0] == '<' && "</"[1] == '/';
        assert w != "</";
      }
    }
  }

  /** The character a short escape `\x` stands for (section 7 of RFC 8259), when `x` names one. */
  function ShortEscape(x: char): Option<char> {
    if x == '\"' then Some('\"')
    else if x == '\\' then Some('\\')
    else if x == '/' then Some('/')
    else if x == 'b' then Some('\U{8}')
    else if x == 'f' then Some('\U{C}')
    else if x == 'n' then Some('\n')
    else if x == 'r' then Some('\r')
    else if x == 't' then Some('\t')
    else None
  }

  /**
   * Reads the body of a JSON string literal up to its closing quote,
   * decoding short escapes and taking every other character as it is.
   * Yields the decoded value and the text after the closing quote, or None
   * when the quote is missing or a backslash starts no short escape.
   */
  function ReadString(t: string): (r: Option<(string, string)>)
    ensures r.Some? ==> |r.value.1| < |t| && t[|t| - |r.value.1|..] == r.value.1
    decreases |t|
  {
    if |t| == 0 then None
    else if t[0] == '\"' then Some(([], t[1..]))
    else if t[0] == '\\' then
      if |t| < 2 || ShortEscape(t[1]).None? then None
      else match ReadString(t[2..])
        case None => None
        case Some((v, rest)) => Some(([ShortEscape(t[1]).value] + v, rest))
    else match ReadString(t[1..])
      case None => None
      case Some((v, rest)) => Some(([t[0]] + v, rest))
  }

  /** The escape of one of the six is a backslash and the short escape standing for it. */
  lemma JsonEscapeCharDecodes(c: char)
    requires IsJsonEscaped(c)
    ensures ShortEscape(JsonEscapeChar(c)[1]) == Some(c)
  {
  }

  /** Reading back a per-character escape followed by a quote gives the original. */
  lemma {:induction false} ReadEscapedChars(s: string, rest: string)
    ensures ReadString(ConcatMap(JsonEscapeChar, s) + ("\"" + rest)) == Some((s, rest))
    decreases |s|
  {
    var t := ConcatMap(JsonEscapeChar, s) + ("\"" + rest);
    if |s| == 0 {
      assert t == "\"" + rest && t[1..] == rest;
    } else {
      var head, u := JsonEscapeChar(s[0]), ConcatMap(JsonEscapeChar, s[1..]) + ("\"" + rest);
      assert t == head + u;
      ReadEscapedChars(s[1..], rest);
      if IsJsonEscaped(s[0]) {
        JsonEscapeCharDecodes(s[0]);
        assert t[0] == '\\' && t[1] == head[1] && t[2..] == u;
      } else {
        assert t[0] == s[0] && t[1..] == u;
      }
      assert s == [s[0]] + s[1..];
    }
  }

  /**
   * `escapeJson` loses nothing: reading its output back, up to the closing
   * quote the report writes after it, recovers the value and leaves the
   * text after the quote untouched.
   */
  lemma EscapeJsonRoundTrip(s: string, rest: string)
    ensures ReadString(EscapeJson(s) + "\"" + rest) == Some((s, rest))
  {
    EscapeJsonIsPerChar(s);
    ReadEscapedChars(s, rest);
    assert EscapeJson(s) + "\"" + rest == EscapeJson(s) + ("\"" + rest);
  }

  predicate IsHexDigit(c: char) {
    ('0' <= c <= '9') || ('a' <= c <= 'f') || ('A' <= c <= 'F')
  }

  /**
   * Section 7 of RFC 8259: `t` is a valid string-literal body.  Quotation
   * marks, backslashes and the control characters U+0000 to U+001F appear
   * only escaped, and every backslash begins a short escape or `\u` with
   * four hex digits.
   */
  predicate IsJsonStringBody(t: string)
    decreases |t|
  {
    if |t| == 0 then true
    else if t[0] == '\\' then
      if |t| >= 2 && ShortEscape(t[1]).Some? then IsJsonStringBody(t[2..])
      else if |t| >= 6 && t[1] == 'u' && IsHexDigit(t[2]) && IsHexDigit(t[3]) && IsHexDigit(t[4]) && IsHexDigit(t[5])
      then IsJsonStringBody(t[6..])
      else false
    else t[0] != '\"' && t[0] as int >= 0x20 && IsJsonStringBody(t[1..])
  }

  /** A control character that `escapeJson` leaves as it is: below U+0020 but not LF, CR or TAB. */
  predicate IsBareControl(c: char) {
    c as int < 0x20 && c != '\n' && c != '\r' && c != '\t'
  }

  /** Validity of a per-character escape, one character at a time. */
  lemma {:induction false} EscapedCharsValid(s: string)
    ensures IsJsonStringBody(ConcatMap(JsonEscapeChar, s)) <==> forall i :: 0 <= i < |s| ==> !IsBareControl(s[i])
    decreases |s|
  {
    if |s| > 0 {
      EscapedCharsValid(s[1..]);
      var head, u := JsonEscapeChar(s[0]), ConcatMap(JsonEscapeChar, s[1..]);
      var t := head + u;
      if IsJsonEscaped(s[0]) {
        JsonEscapeCharDecodes(s[0]);
        assert t[0] == '\\' && t[1] == head[1] && t[2..] == u;
      } else {
        assert t[0] == s[0] && t[1..] == u;
      }
      assert forall i :: 1 <= i < |s| ==> s[i] == s[1..][i - 1];
    }
  }

  /**
   * `escapeJson` yields a valid JSON string body exactly when the value has
   * no control character other than LF, CR and TAB: the other control
   * characters pass through unescaped.
   */
  lemma EscapeJsonValidIff(s: string)
    ensures IsJsonStringBody(EscapeJson(s)) <==> forall i :: 0 <= i < |s| ==> !IsBareControl(s[i])
  {
    EscapeJsonIsPerChar(s);
    EscapedCharsValid(s);
  }

  // ---------------------------------------------------------------- escapeHtml

  /** `escapeHtml`: ampersand first, then `<`, `>` and the double quote. */
  function EscapeHtml(value: string): string {
    var a := ReplaceChar(value, '&', "&amp;");
    var b := ReplaceChar(a, '<', "&lt;");
    var c := ReplaceChar(b, '>', "&gt;");
    ReplaceChar(c, '\"', "&quot;")
  }

  /** The four characters `escapeHtml` rewrites. */
  predicate IsHtmlEscaped(c: char) {
    c == '&' || c == '<' || c == '>' || c == '\"'
  }

  /** What `escapeHtml` makes of one character: its entity for the four, else itself. */
  function HtmlEscapeChar(c: char): (r: string)
    ensures |r| > 0
    ensures IsHtmlEscaped(c) ==> r[0] == '&'
    ensures !IsHtmlEscaped(c) ==> r == [c]
  {
    if c == '&' then "&amp;"
    else if c == '<' then "&lt;"
    else if c == '>' then "&gt;"
    else if c == '\"' then "&quot;"
    else [c]
  }

  /** The chain of replacements distributes over concatenation. */
  lemma EscapeHtmlAppend(x: string, y: string)
    ensures EscapeHtml(x + y) == EscapeHtml(x) + EscapeHtml(y)
  {
    ReplaceAppend(x, y, '&', "&amp;");
    var a1, a2 := ReplaceChar(x, '&', "&amp;"), ReplaceChar(y, '&', "&amp;");
    ReplaceAppend(a1, a2, '<', "&lt;");
    var b1, b2 := ReplaceChar(a1, '<', "&lt;"), ReplaceChar(a2, '<', "&lt;");
    ReplaceAppend(b1, b2, '>', "&gt;");
    var c1, c2 := ReplaceChar(b1, '>', "&gt;"), ReplaceChar(b2, '>', "&gt;");
    ReplaceAppend(c1, c2, '\"', "&quot;");
  }

  /**
   * On one character the chain produces exactly that character's entity:
   * because `&` is replaced first, the ampersands of later entities are
   * never escaped again.
   */
  lemma EscapeHtmlChar(c: char)
    ensures EscapeHtml([c]) == HtmlEscapeChar(c)
  {
  }

  /** `escapeHtml` escapes each character independently. */
  lemma {:induction false} EscapeHtmlIsPerChar(s: string)
    ensures EscapeHtml(s) == ConcatMap(HtmlEscapeChar, s)
    decreases |s|
  {
    if |s| > 0 {
      assert s == [s[0]] + s[1..];
      EscapeHtmlAppend([s[0]], s[1..]);
      EscapeHtmlChar(s[0]);
      EscapeHtmlIsPerChar(s[1..]);
    }
  }

  /** `t` has one of the four entities `escapeHtml` writes at index `i`. */
  predicate StartsEntity(t: string, i: nat) {
    OccursAt(t, "&amp;", i) || OccursAt(t, "&lt;", i) || OccursAt(t, "&gt;", i) || OccursAt(t, "&quot;", i)
  }

  /** An occurrence in `b` is an occurrence in `a + b`, shifted by `|a|`. */
  lemma OccursAfter(a: string, b: string, p: string, j: nat)
    requires OccursAt(b, p, j)
    ensures OccursAt(a + b, p, |a| + j)
  {
    assert (a + b)[|a| + j..|a| + j + |p|] == b[j..j + |p|];
  }

  /** Every `&` of `t` begins one of the four entities. */
  predicate AmpersandsAreEntities(t: string) {
    forall i :: 0 <= i < |t| && t[i] == '&' ==> StartsEntity(t, i)
  }

  /** An entity in `u` is an entity in `head + u`, shifted by `|head|`. */
  lemma EntityAfter(head: string, u: string, j: nat)
    requires StartsEntity(u, j)
    ensures StartsEntity(head + u, |head| + j)
  {
    if OccursAt(u, "&amp;", j) {
      OccursAfter(head, u, "&amp;", j);
    } else if OccursAt(u, "&lt;", j) {
      OccursAfter(head, u, "&lt;", j);
    } else if OccursAt(u, "&gt;", j) {
      OccursAfter(head, u, "&gt;", j);
    } else {
      OccursAfter(head, u, "&quot;", j);
    }
  }

  /** An `&` inside the escape of the first character begins that character's entity. */
  lemma EntityInHead(c: char, u: string, i: nat)
    requires i < |HtmlEscapeChar(c)| && (HtmlEscapeChar(c) + u)[i] == '&'
    ensures StartsEntity(HtmlEscapeChar(c) + u, i)
  {
    var head := HtmlEscapeChar(c);
    var t := head + u;
    assert t[..|head|] == head;
    if c == '&' {
      assert "&amp;"[1] == 'a' && "&amp;"[2] == 'm' && "&amp;"[3] == 'p' && "&amp;"[4] == ';';
    } else if c == '<' {
      assert "&lt;"[1] == 'l' && "&lt;"[2] == 't' && "&lt;"[3] == ';';
    } else if c == '>' {
      assert "&gt;"[1] == 'g' && "&gt;"[2] == 't' && "&gt;"[3] == ';';
    } else if c == '\"' {
      assert "&quot;"[1] == 'q' && "&quot;"[2] == 'u' && "&quot;"[3] == 'o' && "&quot;"[4] == 't' && "&quot;"[5] == ';';
    } else {
      assert false;
    }
    assert i == 0;
  }

  /** One escaped character in front of a text whose ampersands begin entities keeps that property. */
  lemma EntitiesCons(c: char, u: string)
    requires AmpersandsAreEntities(u)
    ensures AmpersandsAreEntities(HtmlEscapeChar(c) + u)
  {
    var head := HtmlEscapeChar(c);
    var t := head + u;
    forall i | 0 <= i < |t| && t[i] == '&'
      ensures StartsEntity(t, i)
    {
      if i < |head| {
        EntityInHead(c, u, i);
      } else {
        assert u[i - |head|] == t[i];
        EntityAfter(head, u, i - |head|);
      }
    }
  }

  /** Every `&` of a per-character HTML escape begins an entity. */
  lemma {:induction false} AmpersandsBeginEntities(s: string)
    ensures AmpersandsAreEntities(ConcatMap(HtmlEscapeChar, s))
    decreases |s|
  {
    if |s| > 0 {
      AmpersandsBeginEntities(s[1..]);
      EntitiesCons(s[0], ConcatMap(HtmlEscapeChar, s[1..]));
    }
  }

  /**
   * The output of `escapeHtml` holds no `<`, `>` or double quote, and each
   * of its ampersands begins `&amp;`, `&lt;`, `&gt;` or `&quot;`.
   */
  lemma EscapeHtmlIsSafe(s: string)
    ensures '<' !in EscapeHtml(s) && '>' !in EscapeHtml(s) && '\"' !in EscapeHtml(s)
    ensures forall i :: 0 <= i < |EscapeHtml(s)| && EscapeHtml(s)[i] == '&' ==> StartsEntity(EscapeHtml(s), i)
  {
    EscapeHtmlIsPerChar(s);
    AmpersandsBeginEntities(s);
    NoRawMarkup(s);
  }

  /** The escape of one character holds no `<`, `>` or double quote. */
  lemma HtmlEscapeCharMembers(c: char, x: char)
    requires x in HtmlEscapeChar(c)
    ensures x != '<' && x != '>' && x != '\"'
  {
  }

  /** A per-character HTML escape holds no `<`, `>` or double quote. */
  lemma NoRawMarkup(s: string)
    ensures var t := ConcatMap(HtmlEscapeChar, s); '<' !in t && '>' !in t && '\"' !in t
  {
    forall x | x in ConcatMap(HtmlEscapeChar, s)
      ensures x != '<' && x != '>' && x != '\"'
    {
      ConcatMapMembers(HtmlEscapeChar, s, x);
      var i :| 0 <= i < |s| && x in HtmlEscapeChar(s[i]);
      HtmlEscapeCharMembers(s[i], x);
    }
  }

  /** Decodes the four entities `escapeHtml` writes and leaves everything else as it is. */
  function UnescapeHtml(t: string): string
    decreases |t|
  {
    if |t| == 0 then []
    else if StartsWith(t, "&amp;") then "&" + UnescapeHtml(t[5..])
    else if StartsWith(t, "&lt;") then "<" + UnescapeHtml(t[4..])
    else if StartsWith(t, "&gt;") then ">" + UnescapeHtml(t[4..])
    else if StartsWith(t, "&quot;") then "\"" + UnescapeHtml(t[6..])
    else [t[0]] + UnescapeHtml(t[1..])
  }

  /** Decoding one escaped character consumes exactly its escape. */
  lemma UnescapeHtmlChar(c: char, rest: string)
    ensures UnescapeHtml(HtmlEscapeChar(c) + rest) == [c] + UnescapeHtml(rest)
  {
    var e := HtmlEscapeChar(c);
    var t := e + rest;
    assert t[..|e|] == e && t[|e|..] == rest;
    if c == '&' {
      assert StartsWith(t, "&amp;");
    } else if c == '<' {
      assert !StartsWith(t, "&amp;") by { assert t[1] == 'l'; }
      assert StartsWith(t, "&lt;");
    } else if c == '>' {
      assert !StartsWith(t, "&amp;") && !StartsWith(t, "&lt;") by { assert t[1] == 'g'; }
      assert StartsWith(t, "&gt;");
    } else if c == '\"' {
      assert !StartsWith(t, "&amp;") && !StartsWith(t, "&lt;") && !StartsWith(t, "&gt;") by { assert t[1] == 'q'; }
      assert StartsWith(t, "&quot;");
    } else {
      assert t[0] == c && t[1..] == rest;
      assert !StartsWith(t, "&amp;") && !StartsWith(t, "&lt;") && !StartsWith(t, "&gt;") && !StartsWith(t, "&quot;") by {
        assert t[0] != '&';
      }
    }
  }

  /** Decoding a per-character escape gives the original. */
  lemma {:induction false} UnescapeEscapedChars(s: string)
    ensures UnescapeHtml(ConcatMap(HtmlEscapeChar, s)) == s
    decreases |s|
  {
    if |s| > 0 {
      UnescapeHtmlChar(s[0], ConcatMap(HtmlEscapeChar, s[1..]));
      UnescapeEscapedChars(s[1..]);
      assert s == [s[0]] + s[1..];
    }
  }

  /** `escapeHtml` loses nothing: decoding its four entities recovers the value. */
  lemma EscapeHtmlRoundTrip(s: string)
    ensures UnescapeHtml(EscapeHtml(s)) == s
  {
    EscapeHtmlIsPerChar(s);
    UnescapeEscapedChars(s);
  }
}
