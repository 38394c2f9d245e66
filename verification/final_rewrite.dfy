/** The second commit-message rewriter: `clean_key`, which turns a key of the
    old-to-new message table back into a message, and `generate_new_message`,
    which keeps an already conventional subject (lower-casing its type) and
    otherwise prefixes a type chosen by keyword substrings.

    Case folding is ASCII only: `str.lower()` and `re.IGNORECASE` also fold
    non-ASCII letters, which this model leaves as they are. */
module FinalRewrite {
  import opened Strings
  import opened Classifier

  /** The separator `git log --pretty=format:%B%n__END_COMMIT__` puts after
      every message. */
  const EndMarker := "__END_COMMIT__"

  /** `clean_key(k)`: Python's `replace` deletes the occurrences of the marker
      found scanning left to right, then the whitespace around is stripped. */
  function CleanKey(k: string): (r: string)
    ensures |r| <= |k|
    ensures r == [] || (!IsPySpace(r[0]) && !IsPySpace(r[|r| - 1]))
  {
    PyStrip(RemoveAll(k, EndMarker))
  }

  /** A key that does not hold the marker is only stripped. */
  lemma CleanKeyWithoutMarker(k: string)
    requires !Contains(k, EndMarker)
    ensures CleanKey(k) == PyStrip(k)
  {
  }

  /** The first marker is deleted wherever it stands, and the scan goes on
      over the rest: `"a__END_COMMIT__b"` cleans to `"ab"`, and a second
      marker in the rest is deleted in turn. */
  lemma CleanKeyDropsMarker(x: string, y: string)
    requires forall i :: 0 <= i < |x| ==> !(EndMarker <= (x + EndMarker)[i..])
    ensures CleanKey(x + EndMarker + y) == PyStrip(x + RemoveAll(y, EndMarker))
  {
    RemoveAllFirst(x, EndMarker, y);
  }

  /** A message whose log entry kept its closing marker is recovered, once
      stripped, provided no other occurrence starts before that one. */
  lemma CleanKeyDropsClosingMarker(msg: string)
    requires forall i :: 0 <= i < |msg| ==> !(EndMarker <= (msg + EndMarker)[i..])
    ensures CleanKey(msg + EndMarker) == PyStrip(msg)
  {
    RemoveAllClosing(msg, EndMarker);
  }

  /** Two markers, each the first in its stretch, are both deleted. */
  lemma CleanKeyDropsTwoMarkers(x: string, y: string, z: string)
    requires forall i :: 0 <= i < |x| ==> !(EndMarker <= (x + EndMarker)[i..])
    requires forall i :: 0 <= i < |y| ==> !(EndMarker <= (y + EndMarker)[i..])
    requires !Contains(z, EndMarker)
    ensures CleanKey(x + EndMarker + y + EndMarker + z) == PyStrip(x + y + z)
  {
    RemoveAllTwo(x, EndMarker, y, z);
  }

  // ---------------------------------------------------------------------------
  // The conventional pattern
  // ---------------------------------------------------------------------------

  /** The type alternatives of the pattern, in its order. */
  const Types: seq<string> :=
    ["feat", "fix", "docs", "style", "refactor", "perf", "test", "chore", "build", "ci", "revert"]

  /** `\(.+\): .+` at the start of `r`, the scope closing at `r[j]`; `.` is
      any character but '\n'. */
  predicate ScopeThenText(r: string, j: int) {
    && 2 <= j && j + 3 < |r|
    && r[0] == '(' && r[j] == ')' && r[j + 1] == ':' && r[j + 2] == ' ' && r[j + 3] != '\n'
    && forall i :: 1 <= i < j ==> r[i] != '\n'
  }

  /** `(\(.+\))?: .+` at the start of `r`: backtracking tries every closing
      parenthesis, so any one that is followed by ": " and a character will do. */
  predicate TailMatches(r: string) {
    || (|r| >= 3 && r[0] == ':' && r[1] == ' ' && r[2] != '\n')
    || exists j :: 0 <= j < |r| && ScopeThenText(r, j)
  }

  /** `re.match(r'^(feat|…|revert)(\(.+\))?: .+', subject, re.IGNORECASE)`.
      Besides the type names the pattern tests only parentheses, colon, space
      and '\n', which no case folding changes, so ignoring case is matching
      the lower-cased subject. */
  predicate IsConventional(subject: string) {
    var lower := Lower(subject);
    exists i :: 0 <= i < |Types| && Types[i] <= lower && TailMatches(lower[|Types[i]|..])
  }

  /** Lower-casing leaves every non-letter as it is and makes no new one. */
  lemma LowerCharKeeps(c: char, d: char)
    requires !IsUpperAscii(d) && !IsLowerAscii(d)
    ensures LowerChar(c) == d <==> c == d
  {
  }

  /** The pattern needs a ':' after the type, so a conventional subject
      holds one. */
  lemma ConventionalHasColon(subject: string)
    requires IsConventional(subject)
    ensures ':' in subject
  {
    var lower := Lower(subject);
    var i :| 0 <= i < |Types| && Types[i] <= lower && TailMatches(lower[|Types[i]|..]);
    TailHasColon(subject, |Types[i]|);
  }

  lemma TailHasColon(subject: string, n: nat)
    requires n <= |subject| && TailMatches(Lower(subject)[n..])
    ensures ':' in subject
  {
    var tail := Lower(subject)[n..];
    assert |tail| == |subject| - n;
    var k: nat;
    if |tail| >= 3 && tail[0] == ':' && tail[1] == ' ' && tail[2] != '\n' {
      k := n;
      assert tail[0] == Lower(subject)[k];
    } else {
      var j :| 0 <= j < |tail| && ScopeThenText(tail, j);
      k := n + j + 1;
      assert tail[j + 1] == Lower(subject)[k];
    }
    LowerCharKeeps(subject[k], ':');
    assert subject[k] == ':';
  }

  /** `parts = subject.split(':', 1); parts[0].lower() + ':' + parts[1]`:
      case is folded before the first ':' and nothing changes from it on. */
  function LowerType(subject: string): (r: string)
    requires ':' in subject
    ensures |r| == |subject|
    ensures Lower(r) == Lower(subject)
    ensures UntilChar(r, ':') == Lower(UntilChar(subject, ':'))
    ensures r[|UntilChar(subject, ':')|..] == subject[|UntilChar(subject, ':')|..]
  {
    var head := UntilChar(subject, ':');
    UntilCharFindsStop(subject, ':');
    FoldHead(subject, head);
    Lower(head) + ":" + subject[|head| + 1..]
  }

  /** The facts `LowerType` states, about its expression. */
  lemma FoldHead(subject: string, head: string)
    requires head == UntilChar(subject, ':') && |head| < |subject|
    ensures var r := Lower(head) + ":" + subject[|head| + 1..];
      && |r| == |subject|
      && Lower(r) == Lower(subject)
      && UntilChar(r, ':') == Lower(head)
      && r[|head|..] == subject[|head|..]
  {
    var rest := subject[|head|..];
    var r := Lower(head) + ":" + subject[|head| + 1..];
    assert subject == head + rest;
    assert r == Lower(head) + rest;
    LowerConcat(head, rest);
    LowerConcat(Lower(head), rest);
    LowerIsLower(head);
    forall i | 0 <= i < |head| ensures Lower(head)[i] != ':' {
      LowerCharKeeps(head[i], ':');
    }
    UntilCharOfPrefix(Lower(head), r, ':');
  }

  /** Folding the type a second time changes nothing. */
  lemma LowerTypeIdempotent(subject: string)
    requires ':' in subject
    ensures ':' in LowerType(subject)
    ensures LowerType(LowerType(subject)) == LowerType(subject)
  {
    var r := LowerType(subject);
    var head := UntilChar(subject, ':');
    UntilCharFindsStop(subject, ':');
    assert r[|head|] == ':';
    var r2 := LowerType(r);
    LowerIsLower(head);
    assert |UntilChar(r, ':')| == |head|;
    assert r2[..|head|] == Lower(Lower(head)) == r[..|head|];
    assert r2 == r2[..|head|] + r2[|head|..];
    assert r == r[..|head|] + r[|head|..];
  }

  // ---------------------------------------------------------------------------
  // The keyword chain
  // ---------------------------------------------------------------------------

  /** The `'w' in lower_subject` chain, in its order; `chore` is the fallback. */
  const FinalRules: seq<Rule> := [
    Rule(Infix, ["fix", "bug", "resolve", "correct"], "fix"),
    Rule(Infix, ["add", "feat", "create", "implement", "new"], "feat"),
    Rule(Infix, ["doc", "readme"], "docs"),
    Rule(Infix, ["style", "css", "ui", "format"], "style"),
    Rule(Infix, ["refactor", "clean", "organize", "remove", "move"], "refactor"),
    Rule(Infix, ["test"], "test")
  ]

  const FinalFallback := "chore"

  /** Every type the chain can produce. */
  predicate IsFinalKind(kind: string) {
    kind in {"fix", "feat", "docs", "style", "refactor", "test", "chore"}
  }

  lemma ChainKinds(s: string)
    ensures IsFinalKind(Classify(FinalRules, FinalFallback, s))
  {
    ClassifyRange(FinalRules, FinalFallback, s);
  }

  /** A chain type is a lower-case word and one of the pattern's types. */
  lemma FinalKindFacts(kind: string) returns (t: nat)
    requires IsFinalKind(kind)
    ensures t < |Types| && Types[t] == kind
    ensures |kind| > 0 && !IsPySpace(kind[0])
    ensures Lower(kind) == kind && ':' !in kind && '\n' !in kind
  {
    t := if kind == "fix" then 1 else if kind == "feat" then 0 else if kind == "docs" then 2
      else if kind == "style" then 3 else if kind == "refactor" then 4 else if kind == "test" then 6
      else 7;
    LowerAsciiWord(kind);
  }

  /** `subject[:-1]` when the subject ends with '.'. */
  function DropFinalDot(s: string): (r: string)
    ensures r <= s
    ensures EndsWith(s, ".") ==> r + "." == s
    ensures !EndsWith(s, ".") ==> r == s
  {
    if EndsWith(s, ".") then s[..|s| - 1] else s
  }

  // ---------------------------------------------------------------------------
  // generate_new_message
  // ---------------------------------------------------------------------------

  /** `msg.split('\n')[0].strip()`: the first line, then stripped. */
  function FinalSubject(msg: string): (subject: string)
    ensures '\n' !in subject
    ensures subject == [] || (!IsPySpace(subject[0]) && !IsPySpace(subject[|subject| - 1]))
  {
    StripKeepsAbsent(UntilChar(msg, '\n'), IsPySpace, '\n');
    PyStrip(UntilChar(msg, '\n'))
  }

  /** A stripped line is its own subject. */
  lemma SubjectOfStrippedLine(line: string)
    requires '\n' !in line
    requires line == [] || (!IsPySpace(line[0]) && !IsPySpace(line[|line| - 1]))
    ensures FinalSubject(line) == line
  {
    UntilCharOfPrefix(line, line, '\n');
    StripOfStripped(line, IsPySpace);
  }

  /** `generate_new_message(msg)`. */
  function GenerateNewMessage(msg: string): (r: string)
    ensures ':' in r
  {
    var subject := FinalSubject(msg);
    if IsConventional(subject) then
      ConventionalHasColon(subject);
      LowerType(subject)
    else
      var r := Classify(FinalRules, FinalFallback, Lower(subject)) + ": " + DropFinalDot(subject);
      assert r[|Classify(FinalRules, FinalFallback, Lower(subject))|] == ':';
      r
  }

  /** A conventional subject is kept: case folded up to its first ':',
      every character from there on unchanged. */
  lemma ConventionalKept(msg: string) returns (head: string)
    requires IsConventional(FinalSubject(msg))
    ensures head == UntilChar(FinalSubject(msg), ':')
    ensures |head| < |FinalSubject(msg)| && FinalSubject(msg)[|head|] == ':'
    ensures |GenerateNewMessage(msg)| == |FinalSubject(msg)|
    ensures GenerateNewMessage(msg)[..|head|] == Lower(head)
    ensures GenerateNewMessage(msg)[|head|..] == FinalSubject(msg)[|head|..]
  {
    var subject := FinalSubject(msg);
    ConventionalHasColon(subject);
    assert GenerateNewMessage(msg) == LowerType(subject);
    head := UntilChar(subject, ':');
    KeptShape(subject, head);
  }

  lemma KeptShape(subject: string, head: string)
    requires ':' in subject && head == UntilChar(subject, ':')
    ensures |head| < |subject| && subject[|head|] == ':'
    ensures LowerType(subject)[..|head|] == Lower(head)
  {
    UntilCharFindsStop(subject, ':');
    var r := LowerType(subject);
    assert UntilChar(r, ':') <= r;
  }

  /** The keyword branch's result, in terms of the chain. */
  lemma KeywordShape(msg: string)
    requires !IsConventional(FinalSubject(msg))
    ensures GenerateNewMessage(msg)
         == Classify(FinalRules, FinalFallback, Lower(FinalSubject(msg))) + ": " + DropFinalDot(FinalSubject(msg))
  {
  }

  /** Otherwise the first rule of the chain whose keyword occurs in the
      lower-cased subject decides the type, and one final '.' is dropped. */
  lemma KeywordPriority(msg: string, i: nat)
    requires !IsConventional(FinalSubject(msg))
    requires i < |FinalRules| && Fires(FinalRules[i], Lower(FinalSubject(msg)))
    requires forall k :: 0 <= k < i ==> !Fires(FinalRules[k], Lower(FinalSubject(msg)))
    ensures GenerateNewMessage(msg) == FinalRules[i].kind + ": " + DropFinalDot(FinalSubject(msg))
  {
    KeywordShape(msg);
    assert Classify(FinalRules, FinalFallback, Lower(FinalSubject(msg))) == FinalRules[i].kind;
  }

  /** With no keyword at all the type is `chore`. */
  lemma NoKeywordIsChore(msg: string)
    requires !IsConventional(FinalSubject(msg))
    requires forall k :: 0 <= k < |FinalRules| ==> !Fires(FinalRules[k], Lower(FinalSubject(msg)))
    ensures GenerateNewMessage(msg) == "chore: " + DropFinalDot(FinalSubject(msg))
  {
    var lower := Lower(FinalSubject(msg));
    NoneFires(FinalRules, FinalFallback, lower);
    KeywordShape(msg);
    assert FinalFallback + ": " == "chore: ";
  }

  /** A fix keyword beats every other, wherever it stands in the subject. */
  lemma FixWins(msg: string, x: string, w: nat, y: string)
    requires !IsConventional(FinalSubject(msg))
    requires w < |FinalRules[0].words| && Lower(FinalSubject(msg)) == x + FinalRules[0].words[w] + y
    ensures "fix: " <= GenerateNewMessage(msg)
  {
    InfixFires(FinalRules[0], w, x, y);
    KeywordPriority(msg, 0);
  }

  /** Only the first line matters. */
  lemma FinalOnlyFirstLine(line: string, rest: string)
    requires '\n' !in line
    ensures GenerateNewMessage(line + "\n" + rest) == GenerateNewMessage(line)
  {
    UntilCharOfPrefix(line, line + "\n" + rest, '\n');
    UntilCharOfPrefix(line, line, '\n');
  }

  /** An empty first line is not conventional and gets the bare fallback. */
  lemma EmptySubject(rest: string)
    ensures GenerateNewMessage("\n" + rest) == "chore: "
  {
    UntilCharOfPrefix("", "\n" + rest, '\n');
    assert FinalSubject("\n" + rest) == "";
    assert !IsConventional("");
    NoKeywordIsChore("\n" + rest);
  }

  /** A generated message is conventional and a fixed point, unless it ends
      with a space (a subject that was empty or ended in " ."), which the
      next run strips away. */
  lemma GenerateIdempotent(msg: string)
    requires var r := GenerateNewMessage(msg); !IsPySpace(r[|r| - 1])
    ensures IsConventional(GenerateNewMessage(msg))
    ensures GenerateNewMessage(GenerateNewMessage(msg)) == GenerateNewMessage(msg)
  {
    var subject := FinalSubject(msg);
    if IsConventional(subject) {
      ConventionalStable(subject);
    } else {
      KeywordStable(subject);
    }
  }

  /** The conventional branch's output is its own subject and stays
      conventional. */
  lemma ConventionalStable(subject: string)
    requires IsConventional(subject) && ':' in subject
    requires '\n' !in subject
    requires subject == [] || (!IsPySpace(subject[0]) && !IsPySpace(subject[|subject| - 1]))
    ensures FinalSubject(LowerType(subject)) == LowerType(subject)
    ensures IsConventional(LowerType(subject))
    ensures LowerType(LowerType(subject)) == LowerType(subject)
  {
    var r := LowerType(subject);
    var head := UntilChar(subject, ':');
    UntilCharFindsStop(subject, ':');
    LowerTypeIdempotent(subject);
    forall i | 0 <= i < |r| ensures r[i] != '\n' {
      if i < |head| {
        assert r[i] == Lower(UntilChar(subject, ':'))[i];
        LowerCharKeeps(subject[i], '\n');
      }
    }
    assert r[|r| - 1] == subject[|subject| - 1];
    if |head| > 0 {
      assert r[0] == Lower(UntilChar(subject, ':'))[0] == LowerChar(subject[0]);
    } else {
      assert r[0] == subject[0];
    }
    SubjectOfStrippedLine(r);
  }

  /** The keyword branch's output, when it does not end with a space, is its
      own subject, conventional, and kept as it is. */
  lemma KeywordStable(subject: string)
    requires !IsConventional(subject)
    requires '\n' !in subject
    requires subject == [] || (!IsPySpace(subject[0]) && !IsPySpace(subject[|subject| - 1]))
    requires var kind := Classify(FinalRules, FinalFallback, Lower(subject));
      var r := kind + ": " + DropFinalDot(subject);
      !IsPySpace(r[|r| - 1])
    ensures var kind := Classify(FinalRules, FinalFallback, Lower(subject));
      var r := kind + ": " + DropFinalDot(subject);
      && FinalSubject(r) == r && IsConventional(r) && ':' in r && LowerType(r) == r
  {
    var kind := Classify(FinalRules, FinalFallback, Lower(subject));
    var d := DropFinalDot(subject);
    var r := kind + ": " + d;
    ChainKinds(Lower(subject));
    var t := FinalKindFacts(kind);
    assert r[|r| - 1] == if d == [] then ' ' else d[|d| - 1];
    assert d != [];
    assert d[0] == subject[0];
    assert '\n' !in d;
    TypedStable(kind, d);
  }

  /** `kind: d`, for a chain type and a text that starts and ends with no
      space, is its own subject, conventional, and kept as it is. */
  lemma TypedStable(kind: string, d: string)
    requires IsFinalKind(kind)
    requires d != [] && '\n' !in d && !IsPySpace(d[0]) && !IsPySpace(d[|d| - 1])
    ensures FinalSubject(kind + ": " + d) == kind + ": " + d
    ensures IsConventional(kind + ": " + d)
    ensures ':' in kind + ": " + d
    ensures LowerType(kind + ": " + d) == kind + ": " + d
  {
    var t := FinalKindFacts(kind);
    TypedIsOwnSubject(kind, d);
    TypedIsConventional(kind, d, t);
    TypedKeepsType(kind, d);
  }

  lemma TypedIsOwnSubject(kind: string, d: string)
    requires |kind| > 0 && !IsPySpace(kind[0]) && '\n' !in kind
    requires d != [] && '\n' !in d && !IsPySpace(d[|d| - 1])
    ensures FinalSubject(kind + ": " + d) == kind + ": " + d
  {
    var r := kind + ": " + d;
    assert r[0] == kind[0];
    assert r[|r| - 1] == d[|d| - 1];
    SubjectOfStrippedLine(r);
  }

  lemma TypedKeepsType(kind: string, d: string)
    requires IsFinalKind(kind)
    ensures ':' in kind + ": " + d
    ensures LowerType(kind + ": " + d) == kind + ": " + d
  {
    var r := kind + ": " + d;
    var t := FinalKindFacts(kind);
    assert r[|kind|] == ':';
    UntilCharOfPrefix(kind, r, ':');
    LowerTypeKeepsLower(r);
  }

  lemma TypedIsConventional(kind: string, d: string, t: nat)
    requires t < |Types| && Types[t] == kind && Lower(kind) == kind
    requires d != [] && d[0] != '\n'
    ensures IsConventional(kind + ": " + d)
  {
    var r := kind + ": " + d;
    LowerConcat(kind, ": " + d);
    LowerConcat(": ", d);
    assert Lower(r) == kind + (": " + Lower(d));
    LowerCharKeeps(d[0], '\n');
    assert Lower(r)[|kind|..] == ": " + Lower(d);
    assert TailMatches(Lower(r)[|Types[t]|..]);
  }

  /** A subject whose part before the first ':' has no upper case letter is
      kept as it is. */
  lemma LowerTypeKeepsLower(r: string)
    requires ':' in r && Lower(UntilChar(r, ':')) == UntilChar(r, ':')
    ensures LowerType(r) == r
  {
    var h := UntilChar(r, ':');
    var x := LowerType(r);
    forall i | 0 <= i < |r| ensures x[i] == r[i] {
      if i < |h| {
        assert x[i] == UntilChar(x, ':')[i];
      } else {
        assert x[i] == x[|h|..][i - |h|];
      }
    }
  }
}
