/** Text helpers shared by the JavaScript and Python parts of the model.

    Case mapping is ASCII only: `Lower` and `Upper` change 'A'..'Z' and
    'a'..'z' and leave every other character alone.  Whitespace follows each
    language exactly: Python's `str.isspace` for `strip`, and ECMAScript's
    WhiteSpace plus LineTerminator for `String.prototype.trim`. */
module Strings {

  // ---------------------------------------------------------------------------
  // Character classes
  // ---------------------------------------------------------------------------

  /** The regex class `\w`, read over ASCII: letters, digits and '_'. */
  predicate IsWordChar(c: char) {
    ('a' <= c <= 'z') || ('A' <= c <= 'Z') || ('0' <= c <= '9') || c == '_'
  }

  predicate IsUpperAscii(c: char) { 'A' <= c <= 'Z' }

  predicate IsLowerAscii(c: char) { 'a' <= c <= 'z' }

  function LowerChar(c: char): char {
    if IsUpperAscii(c) then (c as int + 32) as char else c
  }

  function UpperChar(c: char): char {
    if IsLowerAscii(c) then (c as int - 32) as char else c
  }

  /** Python `str.lower()` over ASCII. */
  function Lower(s: string): string {
    seq(|s|, i requires 0 <= i < |s| => LowerChar(s[i]))
  }

  /** A word of lower-case ASCII letters is its own lower-case form and
      holds no colon, newline or white space. */
  lemma LowerAsciiWord(w: string)
    requires w != [] && forall i :: 0 <= i < |w| ==> IsLowerAscii(w[i])
    ensures |w| > 0 && !IsPySpace(w[0])
    ensures Lower(w) == w && ':' !in w && '\n' !in w
  {
    assert forall i :: 0 <= i < |w| ==> LowerChar(w[i]) == w[i];
  }

  /** No ASCII upper-case letter occurs in `s`. */
  predicate HasNoUpper(s: string) {
    forall i :: 0 <= i < |s| ==> !IsUpperAscii(s[i])
  }

  /** Lower-casing leaves no upper-case letter, so it is idempotent. */
  lemma LowerIsLower(s: string)
    ensures HasNoUpper(Lower(s))
    ensures Lower(Lower(s)) == Lower(s)
  {
  }

  /** Characters for which Python's `str.isspace()` holds. */
  predicate IsPySpace(c: char) {
    ('\t' <= c <= '\r') || ('\U{1C}' <= c <= '\U{1F}') || c == ' '
    || c == '\U{85}' || c == '\U{A0}' || c == '\U{1680}'
    || ('\U{2000}' <= c <= '\U{200A}') || c == '\U{2028}' || c == '\U{2029}'
    || c == '\U{202F}' || c == '\U{205F}' || c == '\U{3000}'
  }

  /** ECMAScript WhiteSpace and LineTerminator, the set `trim()` removes. */
  predicate IsJsSpace(c: char) {
    ('\t' <= c <= '\r') || c == ' ' || c == '\U{A0}' || c == '\U{1680}'
    || ('\U{2000}' <= c <= '\U{200A}') || c == '\U{2028}' || c == '\U{2029}'
    || c == '\U{202F}' || c == '\U{205F}' || c == '\U{3000}' || c == '\U{FEFF}'
  }

  /** The line boundaries at which Python's `str.splitlines()` cuts. */
  predicate IsLineBoundary(c: char) {
    ('\n' <= c <= '\r') || ('\U{1C}' <= c <= '\U{1E}')
    || c == '\U{85}' || c == '\U{2028}' || c == '\U{2029}'
  }

  /** JavaScript `s.length`: UTF-16 code units, two for a character outside
      the Basic Multilingual Plane. */
  function Utf16Length(s: string): (n: nat)
    ensures |s| <= n <= 2 * |s|
  {
    if s == [] then 0 else (if s[0] as int > 0xFFFF then 2 else 1) + Utf16Length(s[1..])
  }

  // ---------------------------------------------------------------------------
  // Trimming
  // ---------------------------------------------------------------------------

  /** Drops the leading characters that satisfy `isSpace`. */
  function TrimStart(s: string, isSpace: char -> bool): (r: string)
    ensures |r| <= |s| && r == s[|s| - |r|..]
    ensures r == [] || !isSpace(r[0])
    ensures forall i :: 0 <= i < |s| - |r| ==> isSpace(s[i])
    decreases |s|
  {
    if |s| > 0 && isSpace(s[0]) then TrimStart(s[1..], isSpace) else s
  }

  /** Drops the trailing characters that satisfy `isSpace`. */
  function TrimEnd(s: string, isSpace: char -> bool): (r: string)
    ensures r <= s
    ensures r == [] || !isSpace(r[|r| - 1])
    ensures forall i :: |r| <= i < |s| ==> isSpace(s[i])
    decreases |s|
  {
    if |s| > 0 && isSpace(s[|s| - 1]) then TrimEnd(s[..|s| - 1], isSpace) else s
  }

  /** Both ends trimmed: the longest slice of `s` that neither starts nor ends
      with a space, surrounded only by spaces. */
  function Strip(s: string, isSpace: char -> bool): (r: string)
    ensures |r| <= |s|
    ensures r == [] || (!isSpace(r[0]) && !isSpace(r[|r| - 1]))
    ensures exists k :: SliceAt(s, k, r)
  {
    var t := TrimStart(s, isSpace);
    TrimmedSlice(s, t, TrimEnd(t, isSpace));
    TrimEnd(t, isSpace)
  }

  /** A prefix of a suffix of `s` is a slice of `s`. */
  lemma TrimmedSlice(s: string, t: string, r: string)
    requires |t| <= |s| && t == s[|s| - |t|..] && r <= t
    ensures SliceAt(s, |s| - |t|, r)
    ensures r == [] || r[0] == t[0]
  {
    assert s[|s| - |t|..|s| - |t| + |r|] == t[..|r|];
  }

  /** `r` occurs in `s` starting at index `k`. */
  predicate SliceAt(s: string, k: int, r: string) {
    0 <= k <= |s| - |r| && s[k..k + |r|] == r
  }

  /** Lower-casing works character by character. */
  lemma LowerConcat(a: string, b: string)
    ensures Lower(a + b) == Lower(a) + Lower(b)
  {
  }

  /** Python `str.strip()` with no argument. */
  function PyStrip(s: string): string {
    Strip(s, IsPySpace)
  }

  /** JavaScript `String.prototype.trim()`. */
  function JsTrim(s: string): string {
    Strip(s, IsJsSpace)
  }

  /** Stripping cannot bring in a character the input lacks. */
  lemma StripKeepsAbsent(s: string, isSpace: char -> bool, c: char)
    requires c !in s
    ensures c !in Strip(s, isSpace)
  {
    var r := Strip(s, isSpace);
    var k :| SliceAt(s, k, r);
    forall i | 0 <= i < |r| ensures r[i] != c {
      assert r[i] == s[k + i];
    }
  }

  /** A string with no space at either end is its own strip. */
  lemma {:induction false} StripOfStripped(s: string, isSpace: char -> bool)
    requires s == [] || (!isSpace(s[0]) && !isSpace(s[|s| - 1]))
    ensures Strip(s, isSpace) == s
  {
  }

  /** Stripping twice is stripping once. */
  lemma StripIdempotent(s: string, isSpace: char -> bool)
    ensures Strip(Strip(s, isSpace), isSpace) == Strip(s, isSpace)
  {
    StripOfStripped(Strip(s, isSpace), isSpace);
  }

  // ---------------------------------------------------------------------------
  // Prefixes, suffixes, substrings
  // ---------------------------------------------------------------------------

  predicate EndsWith(s: string, suffix: string) {
    |suffix| <= |s| && s[|s| - |suffix|..] == suffix
  }

  /** Python `w in s` / JavaScript `s.includes(w)` for strings. */
  predicate Contains(s: string, w: string)
    decreases |s|
  {
    w <= s || (|s| > 0 && Contains(s[1..], w))
  }

  /** Some word of `words` is a prefix of `s`. */
  predicate StartsWithAny(s: string, words: seq<string>) {
    exists i :: 0 <= i < |words| && words[i] <= s
  }

  /** Some word of `words` occurs in `s`. */
  predicate ContainsAny(s: string, words: seq<string>) {
    exists i :: 0 <= i < |words| && Contains(s, words[i])
  }

  /** `w` occurs in `x + w + y`. */
  lemma {:induction false} ContainsMiddle(x: string, w: string, y: string)
    ensures Contains(x + w + y, w)
    decreases |x|
  {
    if x == [] {
      assert x + w + y == w + y;
    } else {
      assert (x + w + y)[1..] == x[1..] + w + y;
      ContainsMiddle(x[1..], w, y);
    }
  }

  // ---------------------------------------------------------------------------
  // Lines
  // ---------------------------------------------------------------------------

  /** The part of `s` before the first `stop`: `s.split(stop)[0]`. */
  function UntilChar(s: string, stop: char): (r: string)
    ensures r <= s
    ensures stop !in r
    ensures |r| == |s| || s[|r|] == stop
    decreases |s|
  {
    if |s| == 0 || s[0] == stop then [] else [s[0]] + UntilChar(s[1..], stop)
  }

  /** Cutting at the first `stop` a string that starts with a stretch free
      of `stop`, followed by nothing or by `stop`, yields that stretch. */
  lemma {:induction false} UntilCharOfPrefix(prefix: string, s: string, stop: char)
    requires stop !in prefix
    requires prefix <= s && (|s| == |prefix| || s[|prefix|] == stop)
    ensures UntilChar(s, stop) == prefix
    decreases |prefix|
  {
    if prefix != [] {
      assert prefix[1..] <= s[1..];
      UntilCharOfPrefix(prefix[1..], s[1..], stop);
    }
  }

  /** When `stop` occurs, the cut ends right before its first occurrence. */
  lemma {:induction false} UntilCharFindsStop(s: string, stop: char)
    requires stop in s
    ensures |UntilChar(s, stop)| < |s|
    decreases |s|
  {
    if s[0] != stop {
      assert stop in s[1..];
      UntilCharFindsStop(s[1..], stop);
    }
  }

  /** Length of the longest prefix of `s` free of line boundaries. */
  function LineLength(s: string): (n: nat)
    ensures n <= |s|
    ensures forall i :: 0 <= i < n ==> !IsLineBoundary(s[i])
    ensures n == |s| || IsLineBoundary(s[n])
    decreases |s|
  {
    if |s| == 0 || IsLineBoundary(s[0]) then 0 else 1 + LineLength(s[1..])
  }

  /** Python `str.splitlines()`: cuts at every line boundary, "\r\n" counting
      as one, keeps empty lines between boundaries but produces no line after
      a final boundary; the empty string has no lines at all. */
  function SplitLines(s: string): (lines: seq<string>)
    ensures |lines| == 0 <==> s == []
    ensures forall k :: 0 <= k < |lines| ==> NoLineBoundary(lines[k])
    ensures s != [] ==> lines[0] == s[..LineLength(s)]
    decreases |s|
  {
    if s == [] then []
    else
      var n := LineLength(s);
      if n == |s| then [s]
      else
        var width := if s[n] == '\r' && n + 1 < |s| && s[n + 1] == '\n' then 2 else 1;
        [s[..n]] + SplitLines(s[n + width..])
  }

  /** A line free of boundaries that ends `s`, or ends right before a
      boundary, is all `LineLength` measures. */
  lemma {:induction false} LineLengthOfPrefix(line: string, s: string)
    requires NoLineBoundary(line)
    requires line <= s && (|s| == |line| || IsLineBoundary(s[|line|]))
    ensures LineLength(s) == |line|
    decreases |line|
  {
    if line != [] {
      assert line[1..] <= s[1..];
      LineLengthOfPrefix(line[1..], s[1..]);
    }
  }

  predicate NoLineBoundary(s: string) {
    forall i :: 0 <= i < |s| ==> !IsLineBoundary(s[i])
  }

  /** `sep.join(parts)`. */
  function Join(parts: seq<string>, sep: string): string {
    if |parts| == 0 then []
    else if |parts| == 1 then parts[0]
    else parts[0] + sep + Join(parts[1..], sep)
  }

  /** Python `s.replace(pat, "")`: deletes the occurrences of `pat` found by a
      left-to-right scan that resumes after each deleted occurrence. */
  function RemoveAll(s: string, pat: string): (r: string)
    requires |pat| > 0
    ensures |r| <= |s|
    ensures !Contains(s, pat) ==> r == s
    decreases |s|
  {
    if pat <= s then RemoveAll(s[|pat|..], pat)
    else if |s| == 0 then []
    else [s[0]] + RemoveAll(s[1..], pat)
  }

  /** The first occurrence of `pat` in `x + pat + y`, when none starts
      inside `x`, is deleted; the scan then resumes on `y`. */
  lemma {:induction false} RemoveAllFirst(x: string, pat: string, y: string)
    requires |pat| > 0
    requires forall i :: 0 <= i < |x| ==> !(pat <= (x + pat)[i..])
    ensures RemoveAll(x + pat + y, pat) == x + RemoveAll(y, pat)
    decreases |x|
  {
    var s := x + pat + y;
    if x == [] {
      assert s == pat + y;
      assert s[|pat|..] == y;
    } else {
      assert (x + pat)[0..] == x + pat;
      NotPrefixAtStart(x, pat, y);
      var t := s[1..];
      assert RemoveAll(s, pat) == [s[0]] + RemoveAll(t, pat);
      assert t == x[1..] + pat + y;
      ShiftNoEarlyMatch(x, pat);
      RemoveAllFirst(x[1..], pat, y);
      ConsTail(x, RemoveAll(y, pat));
    }
  }

  /** Putting the head back in front of the tail. */
  lemma ConsTail(x: string, r: string)
    requires x != []
    ensures [x[0]] + (x[1..] + r) == x + r
  {
    assert x == [x[0]] + x[1..];
  }

  /** `pat` not starting `x + pat` does not start it with anything after. */
  lemma NotPrefixAtStart(x: string, pat: string, y: string)
    requires !(pat <= x + pat)
    ensures !(pat <= x + pat + y)
  {
    assert (x + pat + y)[..|pat|] == (x + pat)[..|pat|];
  }

  /** No early occurrence in `x + pat` means none in `x[1..] + pat` either. */
  lemma ShiftNoEarlyMatch(x: string, pat: string)
    requires x != []
    requires forall i :: 0 <= i < |x| ==> !(pat <= (x + pat)[i..])
    ensures forall i :: 0 <= i < |x[1..]| ==> !(pat <= (x[1..] + pat)[i..])
  {
    forall i | 0 <= i < |x[1..]|
      ensures !(pat <= (x[1..] + pat)[i..])
    {
      assert (x[1..] + pat)[i..] == (x + pat)[i + 1..];
    }
  }

  /** A closing occurrence, the first one, is all that is deleted. */
  lemma RemoveAllClosing(x: string, pat: string)
    requires |pat| > 0
    requires forall i :: 0 <= i < |x| ==> !(pat <= (x + pat)[i..])
    ensures RemoveAll(x + pat, pat) == x
  {
    RemoveAllFirst(x, pat, []);
    assert x + pat + [] == x + pat;
  }

  /** Two occurrences, each the first in its stretch, are both deleted. */
  lemma RemoveAllTwo(x: string, pat: string, y: string, z: string)
    requires |pat| > 0
    requires forall i :: 0 <= i < |x| ==> !(pat <= (x + pat)[i..])
    requires forall i :: 0 <= i < |y| ==> !(pat <= (y + pat)[i..])
    requires !Contains(z, pat)
    ensures RemoveAll(x + pat + y + pat + z, pat) == x + y + z
  {
    var tail := y + pat + z;
    assert x + pat + y + pat + z == x + pat + tail;
    RemoveAllFirst(x, pat, tail);
    RemoveAllFirst(y, pat, z);
  }

  /** A word holding a character that `s` lacks does not occur in `s`. */
  lemma {:induction false} NotContainsMissingChar(s: string, w: string, i: nat)
    requires i < |w| && w[i] !in s
    ensures !Contains(s, w)
    decreases |s|
  {
    if i < |s| {
      assert s[i] in s;
    }
    if |w| <= |s| {
      assert s[..|w|][i] == s[i];
    }
    if |s| > 0 {
      assert w[i] !in s[1..] by {
        assert forall k :: 0 <= k < |s[1..]| ==> s[1..][k] == s[k + 1];
      }
      NotContainsMissingChar(s[1..], w, i);
    }
  }

  /** Every line boundary in `s` is a '\n'. */
  predicate OnlyNewlineBreaks(s: string) {
    forall i :: 0 <= i < |s| && IsLineBoundary(s[i]) ==> s[i] == '\n'
  }

  /** Joining boundary-free lines with "\n" leaves '\n' the only boundary. */
  lemma {:induction false} JoinOnlyNewlines(parts: seq<string>)
    requires forall k :: 0 <= k < |parts| ==> NoLineBoundary(parts[k])
    ensures OnlyNewlineBreaks(Join(parts, "\n"))
    decreases |parts|
  {
    if |parts| > 1 {
      JoinOnlyNewlines(parts[1..]);
      var rest := Join(parts[1..], "\n");
      var s := parts[0] + "\n" + rest;
      forall i | 0 <= i < |s| && IsLineBoundary(s[i]) ensures s[i] == '\n' {
        if i > |parts[0]| {
          assert s[i] == rest[i - |parts[0]| - 1];
        }
      }
    }
  }

  /** A slice keeps '\n' the only boundary. */
  lemma SliceKeepsNewlineBreaks(s: string, k: int, r: string)
    requires SliceAt(s, k, r) && OnlyNewlineBreaks(s)
    ensures OnlyNewlineBreaks(r)
  {
    assert forall i :: 0 <= i < |r| ==> r[i] == s[k + i];
  }

  /** Joining a line onto further lines puts the separator between them. */
  lemma JoinCons(x: string, rest: seq<string>, sep: string)
    requires rest != []
    ensures Join([x] + rest, sep) == x + sep + Join(rest, sep)
  {
    assert ([x] + rest)[1..] == rest;
  }

  /** An empty first part leaves a leading separator. */
  lemma JoinAfterEmpty(rest: seq<string>, sep: string)
    requires rest != []
    ensures Join([[]] + rest, sep) == sep + Join(rest, sep)
  {
    JoinCons([], rest, sep);
    assert [] + sep == sep;
  }

  /** Splitting at '\n' and joining with "\n" gives the text back when
      '\n' is its only boundary and it does not end in one. */
  lemma {:induction false} JoinSplitLines(b: string)
    requires OnlyNewlineBreaks(b) && (b == [] || b[|b| - 1] != '\n')
    ensures Join(SplitLines(b), "\n") == b
    decreases |b|
  {
    if b == [] {
    } else if LineLength(b) == |b| {
      assert SplitLines(b) == [b];
    } else {
      var n := LineLength(b);
      var rest := SplitAtNewline(b);
      var lines := SplitLines(rest);
      JoinSplitLines(rest);
      JoinCons(b[..n], lines, "\n");
    }
  }

  /** The first '\n' of such a text cuts one line off a non-empty rest of the
      same kind. */
  lemma SplitAtNewline(b: string) returns (rest: string)
    requires OnlyNewlineBreaks(b) && b != [] && b[|b| - 1] != '\n' && LineLength(b) < |b|
    ensures var n := LineLength(b); b[n] == '\n' && rest == b[n + 1..] && b[..n] + "\n" + rest == b
    ensures SplitLines(b) == [b[..LineLength(b)]] + SplitLines(rest)
    ensures rest != [] && SplitLines(rest) != []
    ensures OnlyNewlineBreaks(rest) && rest[|rest| - 1] != '\n'
  {
    var n := LineLength(b);
    assert b[n] == '\n';
    rest := b[n + 1..];
    assert rest != [] && rest[|rest| - 1] == b[|b| - 1];
    SplitLinesAtBreak(b, n);
    SplitAroundNewline(b, n);
    assert SplitLines(rest) != [];
    SuffixKeepsNewlineBreaks(b, n + 1);
  }

  lemma SuffixKeepsNewlineBreaks(s: string, k: int)
    requires 0 <= k <= |s| && OnlyNewlineBreaks(s)
    ensures OnlyNewlineBreaks(s[k..])
  {
    assert forall i :: 0 <= i < |s| - k ==> s[k..][i] == s[k + i];
  }

  /** A text is what comes before an index, the character there, and the rest. */
  lemma SplitAround(b: string, n: int)
    requires 0 <= n < |b|
    ensures b == b[..n] + [b[n]] + b[n + 1..]
  {
    assert b[..n + 1] == b[..n] + [b[n]];
    assert b == b[..n + 1] + b[n + 1..];
  }

  /** A '\n' that ends the first line cuts that line off. */
  lemma SplitLinesAtBreak(b: string, n: int)
    requires 0 <= n < |b| && n == LineLength(b) && b[n] == '\n'
    ensures SplitLines(b) == [b[..n]] + SplitLines(b[n + 1..])
  {
    assert NoLineBoundary(b[..n]) by {
      assert forall i :: 0 <= i < n ==> b[..n][i] == b[i];
    }
    SplitLinesAfterLine(b[..n], b[n..]);
    assert b[..n] + b[n..] == b;
    assert b[n..][1..] == b[n + 1..];
  }

  /** The same, at a '\n'. */
  lemma SplitAroundNewline(b: string, n: int)
    requires 0 <= n < |b| && b[n] == '\n'
    ensures b == b[..n] + "\n" + b[n + 1..]
  {
    SplitAround(b, n);
    assert [b[n]] == "\n";
  }

  /** A boundary-free line followed by a '\n' is split off as the first line. */
  lemma SplitLinesAfterLine(line: string, rest: string)
    requires NoLineBoundary(line) && rest != [] && rest[0] == '\n'
    ensures SplitLines(line + rest) == [line] + SplitLines(rest[1..])
  {
    var s := line + rest;
    LineLengthOfPrefix(line, s);
    assert s[|line|] == '\n';
    assert s[..|line|] == line && s[|line| + 1..] == rest[1..];
  }

  /** A text that starts with no white space loses only a leading '\n' to
      `strip`. */
  lemma StripLeadingNewline(b: string)
    requires b != [] && !IsPySpace(b[0]) && !IsPySpace(b[|b| - 1])
    ensures PyStrip("\n" + b) == b
  {
    var s := "\n" + b;
    assert s[1..] == b;
    assert TrimStart(b, IsPySpace) == b;
    assert TrimStart(s, IsPySpace) == b;
    StripOfStripped(b, IsPySpace);
  }
}
