/** The third commit-message rewriter, the `message_callback` given to
    git-filter-repo: it leaves conventional and merge messages alone, drops
    messages with no subject, and otherwise prefixes a type chosen by the
    words the subject starts with, keeping the subject and the body.

    Messages are modelled as decoded strings; the UTF-8 decoding and
    encoding around the function are left out. Case folding is ASCII only. */
module RewriteHistory {
  import opened Strings
  import opened Classifier

  /** The type alternatives of the pattern, in its order. */
  const HistoryTypes: seq<string> :=
    ["feat", "fix", "docs", "style", "refactor", "perf", "test", "chore", "ci", "build", "revert"]

  /** `\(.*\):` at the start of `r`, the scope closing at `r[j]`. */
  predicate ScopeThenColon(r: string, j: int) {
    && 1 <= j && j + 1 < |r|
    && r[0] == '(' && r[j] == ')' && r[j + 1] == ':'
    && forall i :: 1 <= i < j ==> r[i] != '\n'
  }

  /** `(\(.*\))?:` at the start of `r`: a ':' at once, or any closing
      parenthesis followed by one (backtracking tries them all). */
  predicate ColonTail(r: string) {
    || (|r| > 0 && r[0] == ':')
    || exists j :: 0 <= j < |r| && ScopeThenColon(r, j)
  }

  /** `re.match(r'^(feat|…|revert)(\(.*\))?:', lower_subject)`. */
  predicate IsConventional(lower: string) {
    exists i :: 0 <= i < |HistoryTypes| && HistoryTypes[i] <= lower && ColonTail(lower[|HistoryTypes[i]|..])
  }

  /** The `re.match('^(w1|w2|…)', lower_subject)` chain, in its order. */
  const HistoryRules: seq<Rule> := [
    Rule(Prefix, ["add", "added", "implement", "create", "new", "feat", "feature"], "feat"),
    Rule(Prefix, ["fix", "fixed", "resolve", "correct", "bug", "patch", "repair", "restore"], "fix"),
    Rule(Prefix, ["update", "adjust", "change", "modify", "tweak", "set", "force", "boost",
                  "increase", "reduce", "scale"], "chore"),
    Rule(Prefix, ["refactor", "clean", "simplify", "optimize", "reorganize", "move", "split",
                  "extract", "consolidate", "modularize", "flatten"], "refactor"),
    Rule(Prefix, ["doc", "docs", "document", "readme", "reviewing"], "docs"),
    Rule(Prefix, ["remove", "delete", "drop", "unused", "dead"], "chore"),
    Rule(Prefix, ["style", "format", "lint", "ui", "layout", "design", "color", "css", "scss"], "style"),
    Rule(Prefix, ["test", "tests", "spec", "jest"], "test")
  ]

  const HistoryFallback := "chore"

  /** The last `elif`: a merge subject no earlier rule claimed. */
  predicate KeptAsMerge(lower: string) {
    FirstFiringFrom(HistoryRules, lower, 0) == |HistoryRules| && "merge" <= lower
  }

  /** The chain's type, then overridden by "typo" and after that by "bump". */
  function Retype(lower: string): (kind: string)
    ensures Contains(lower, "bump") ==> kind == "chore"
    ensures !Contains(lower, "bump") && Contains(lower, "typo") ==> kind == "docs"
    ensures kind in {"feat", "fix", "chore", "refactor", "docs", "style", "test"}
  {
    HistoryChainKinds(lower);
    var chained := Classify(HistoryRules, HistoryFallback, lower);
    var afterTypo := if Contains(lower, "typo") then "docs" else chained;
    if Contains(lower, "bump") then "chore" else afterTypo
  }

  /** The chain yields one of the seven types. */
  lemma HistoryChainKinds(lower: string)
    ensures Classify(HistoryRules, HistoryFallback, lower) in {"feat", "fix", "chore", "refactor", "docs", "style", "test"}
  {
    var i := FirstFiringFrom(HistoryRules, lower, 0);
    if i < |HistoryRules| {
      HistoryRuleKind(i);
    }
  }

  /** Each rule's type is one of the seven. */
  lemma HistoryRuleKind(i: nat)
    requires i < |HistoryRules|
    ensures HistoryRules[i].kind in {"feat", "fix", "chore", "refactor", "docs", "style", "test"}
  {
    if i < 4 {
      assert HistoryRules[i].kind == ["feat", "fix", "chore", "refactor"][i];
    } else {
      assert HistoryRules[i].kind == ["docs", "chore", "style", "test"][i - 4];
    }
  }

  /** `"\n\n" + body` when the stripped body is not empty. */
  function BodySuffix(body: string): (r: string)
    ensures body == [] ==> r == []
    ensures body != [] ==> |r| > 0 && r[0] == '\n'
  {
    if body == [] then [] else "\n\n" + body
  }

  /** `lines[0].strip()`, the subject of a message with lines. */
  function SubjectOf(lines: seq<string>): string
    requires |lines| > 0
  {
    PyStrip(lines[0])
  }

  /** `clean_message(message)`: empty exactly when there is no subject. */
  function CleanMessage(msg: string): (r: string)
    ensures r == [] <==> Subject(msg) == []
  {
    var lines := SplitLines(msg);
    if lines == [] then ""
    else
      var subject := SubjectOf(lines);
      var body := PyStrip(Join(lines[1..], "\n"));
      if subject == [] then ""
      else
        var lower := Lower(subject);
        if IsConventional(lower) || KeptAsMerge(lower) then msg
        else Retype(lower) + ": " + subject + BodySuffix(body)
  }

  /** The body `clean_message` keeps: the later lines joined and stripped. */
  function Body(msg: string): string {
    var lines := SplitLines(msg);
    if lines == [] then "" else PyStrip(Join(lines[1..], "\n"))
  }

  /** The subject `clean_message` looks at, when there is one. */
  function Subject(msg: string): (subject: string)
    ensures subject == [] || (!IsPySpace(subject[0]) && !IsPySpace(subject[|subject| - 1]))
    ensures NoLineBoundary(subject)
  {
    var lines := SplitLines(msg);
    if lines == [] then "" else
      StripKeepsClean(lines[0]);
      SubjectOf(lines)
  }

  /** The messages `clean_message` prefixes with a type: a subject that is
      neither conventional nor a merge. */
  predicate Retyped(msg: string) {
    var lower := Lower(Subject(msg));
    Subject(msg) != [] && !IsConventional(lower) && !KeptAsMerge(lower)
  }

  /** Stripping keeps a line free of line boundaries. */
  lemma StripKeepsClean(line: string)
    requires NoLineBoundary(line)
    ensures NoLineBoundary(PyStrip(line))
  {
    var r := PyStrip(line);
    var k :| SliceAt(line, k, r);
    forall i | 0 <= i < |r| ensures !IsLineBoundary(r[i]) {
      assert r[i] == line[k + i];
    }
  }

  /** A conventional subject keeps the whole message, body and all. */
  lemma ConventionalUnchanged(msg: string)
    requires Subject(msg) != [] && IsConventional(Lower(Subject(msg)))
    ensures CleanMessage(msg) == msg
  {
  }

  /** No word of the chain starts with "me", so a subject starting with
      "merge" reaches the last `elif`. */
  lemma MergeFiresNoRule(lower: string)
    requires "merge" <= lower
    ensures forall k :: 0 <= k < |HistoryRules| ==> !Fires(HistoryRules[k], lower)
  {
    forall k, i | 0 <= k < |HistoryRules| && 0 <= i < |HistoryRules[k].words|
      ensures !(HistoryRules[k].words[i] <= lower)
    {
      var w := HistoryRules[k].words[i];
      assert |w| >= 2 && (w[0] != 'm' || w[1] != 'e');
    }
  }

  /** A merge subject keeps the whole message. */
  lemma MergeUnchanged(msg: string)
    requires "merge" <= Lower(Subject(msg))
    ensures CleanMessage(msg) == msg
  {
    var lower := Lower(Subject(msg));
    MergeFiresNoRule(lower);
    NoRuleFiresAtAll(lower);
  }

  lemma NoRuleFiresAtAll(lower: string)
    requires forall k :: 0 <= k < |HistoryRules| ==> !Fires(HistoryRules[k], lower)
    ensures FirstFiringFrom(HistoryRules, lower, 0) == |HistoryRules|
  {
  }

  /** The text of a rewritten message: type, ": ", the stripped subject, and
      the stripped body after a blank line when there is one. */
  lemma RewrittenText(msg: string) returns (body: string)
    requires Retyped(msg)
    ensures body == PyStrip(Join(SplitLines(msg)[1..], "\n"))
    ensures CleanMessage(msg) == Retype(Lower(Subject(msg))) + ": " + Subject(msg) + BodySuffix(body)
  {
    body := PyStrip(Join(SplitLines(msg)[1..], "\n"));
  }

  /** What `clean_message`'s own parsing reads back from a rewritten message:
      its subject is the type, ": " and the old subject, and its body is the
      old stripped body. */
  lemma RewrittenShape(msg: string) returns (body: string)
    requires Retyped(msg)
    ensures CleanMessage(msg) != msg
    ensures body == Body(msg)
    ensures Subject(CleanMessage(msg)) == Retype(Lower(Subject(msg))) + ": " + Subject(msg)
    ensures Body(CleanMessage(msg)) == body
  {
    body := RewrittenText(msg);
    ReparseTyped(Retype(Lower(Subject(msg))), msg);
    assert |Subject(CleanMessage(msg))| > |Subject(msg)|;
  }

  /** `clean_message` changes a message with a subject exactly when it
      prefixes a type: the conventional and the merge subjects come back
      unchanged, every other one comes back longer. */
  lemma RewrittenExactly(msg: string)
    requires Subject(msg) != []
    ensures CleanMessage(msg) != msg <==> Retyped(msg)
  {
    if Retyped(msg) {
      var _ := RewrittenShape(msg);
    }
  }

  /** The typed line and the body read back from their assembly. */
  lemma ReparseTyped(kind: string, msg: string)
    requires kind in {"feat", "fix", "chore", "refactor", "docs", "style", "test"}
    requires Subject(msg) != []
    ensures var r := kind + ": " + Subject(msg) + BodySuffix(Body(msg));
      Subject(r) == kind + ": " + Subject(msg) && Body(r) == Body(msg)
  {
    BodyIsStripped(msg);
    ReparseLine(kind, Subject(msg), Body(msg));
  }

  /** The same for any subject line and stripped body. */
  lemma ReparseLine(kind: string, subject: string, body: string)
    requires kind in {"feat", "fix", "chore", "refactor", "docs", "style", "test"}
    requires subject != [] && NoLineBoundary(subject)
    requires !IsPySpace(subject[0]) && !IsPySpace(subject[|subject| - 1])
    requires OnlyNewlineBreaks(body) && (body == [] || (!IsPySpace(body[0]) && !IsPySpace(body[|body| - 1])))
    ensures var r := kind + ": " + subject + BodySuffix(body);
      Subject(r) == kind + ": " + subject && Body(r) == body
  {
    TypedLineIsSubject(kind, subject, BodySuffix(body));
    TypedLineHasNoBoundary(kind, subject);
    ReparseBody(kind + ": " + subject, body);
  }

  /** The body `clean_message` keeps has '\n' as its only boundary and no
      white space at either end. */
  lemma BodyIsStripped(msg: string)
    ensures var body := Body(msg);
      OnlyNewlineBreaks(body) && (body == [] || (!IsPySpace(body[0]) && !IsPySpace(body[|body| - 1])))
  {
    var lines := SplitLines(msg);
    if lines != [] {
      var rest := lines[1..];
      assert forall k :: 0 <= k < |rest| ==> rest[k] == lines[k + 1];
      JoinOnlyNewlines(rest);
      var joined := Join(rest, "\n");
      var body := PyStrip(joined);
      var k :| SliceAt(joined, k, body);
      SliceKeepsNewlineBreaks(joined, k, body);
    }
  }

  /** Splitting a line plus a stripped body the way `clean_message` does
      gives the body back. */
  lemma ReparseBody(line: string, body: string)
    requires line != [] && NoLineBoundary(line)
    requires OnlyNewlineBreaks(body) && (body == [] || (!IsPySpace(body[0]) && !IsPySpace(body[|body| - 1])))
    ensures Body(line + BodySuffix(body)) == body
  {
    if body == [] {
      LineLengthOfPrefix(line, line);
      assert line + BodySuffix(body) == line;
      assert SplitLines(line) == [line];
      StripOfStripped([], IsPySpace);
    } else {
      var rest := LaterLinesOfTyped(line, body);
      JoinedLaterLines(body);
      StripLeadingNewline(body);
    }
  }

  /** After a line and "\n\n", the later lines are an empty line and then the
      body's lines. */
  lemma LaterLinesOfTyped(line: string, body: string) returns (rest: seq<string>)
    requires line != [] && NoLineBoundary(line) && body != []
    ensures SplitLines(line + BodySuffix(body)) != []
    ensures rest == SplitLines(line + BodySuffix(body))[1..]
    ensures rest == [[]] + SplitLines(body)
  {
    var a := "\n" + body;
    assert SplitLines(line + BodySuffix(body)) == [line] + SplitLines(a) by {
      var b := "\n" + a;
      assert BodySuffix(body) == b;
      SplitLinesAfterLine(line, b);
      assert b[1..] == a;
    }
    assert SplitLines(a) == [[]] + SplitLines(body) by {
      SplitLinesAfterBreak(a);
      assert a[1..] == body;
    }
    rest := [[]] + SplitLines(body);
    assert ([line] + rest)[1..] == rest;
  }

  /** A text that starts with '\n' starts with an empty line. */
  lemma SplitLinesAfterBreak(a: string)
    requires a != [] && a[0] == '\n'
    ensures SplitLines(a) == [[]] + SplitLines(a[1..])
  {
    SplitLinesAfterLine([], a);
    assert [] + a == a;
  }

  /** Joining an empty line and the lines of a body gives "\n" and the body. */
  lemma JoinedLaterLines(body: string)
    requires body != [] && OnlyNewlineBreaks(body) && body[|body| - 1] != '\n'
    ensures Join([[]] + SplitLines(body), "\n") == "\n" + body
  {
    JoinAfterEmpty(SplitLines(body), "\n");
    JoinSplitLines(body);
  }

  /** The rewritten message starts with the type and ": ". */
  lemma RewrittenStartsWith(msg: string) returns (kind: string)
    requires Retyped(msg)
    ensures kind == Retype(Lower(Subject(msg)))
    ensures kind + ": " <= CleanMessage(msg)
  {
    var body := RewrittenText(msg);
    kind := Retype(Lower(Subject(msg)));
    PrefixOfConcat(kind + ": ", Subject(msg), BodySuffix(body));
  }

  lemma PrefixOfConcat(x: string, y: string, z: string)
    ensures x <= x + y + z
  {
  }

  /** "bump" anywhere in the subject makes it a chore, even with "typo". */
  lemma BumpBeatsTypo(msg: string)
    requires Retyped(msg)
    requires Contains(Lower(Subject(msg)), "bump")
    ensures "chore: " <= CleanMessage(msg)
  {
    var kind := RewrittenStartsWith(msg);
    assert kind == "chore";
    assert kind + ": " == "chore: ";
  }

  /** "typo" without "bump" makes it docs, whatever the chain said. */
  lemma TypoMeansDocs(msg: string)
    requires Retyped(msg)
    requires Contains(Lower(Subject(msg)), "typo") && !Contains(Lower(Subject(msg)), "bump")
    ensures "docs: " <= CleanMessage(msg)
  {
    var kind := RewrittenStartsWith(msg);
    assert kind == "docs";
    assert kind + ": " == "docs: ";
  }

  /** Otherwise the first chain rule the subject starts with decides. */
  lemma ChainPriority(msg: string, k: nat)
    requires Subject(msg) != [] && !IsConventional(Lower(Subject(msg)))
    requires !Contains(Lower(Subject(msg)), "bump") && !Contains(Lower(Subject(msg)), "typo")
    requires k < |HistoryRules| && Fires(HistoryRules[k], Lower(Subject(msg)))
    requires forall j :: 0 <= j < k ==> !Fires(HistoryRules[j], Lower(Subject(msg)))
    ensures HistoryRules[k].kind + ": " <= CleanMessage(msg)
  {
    assert !KeptAsMerge(Lower(Subject(msg)));
    var kind := RewrittenStartsWith(msg);
    assert kind == Classify(HistoryRules, HistoryFallback, Lower(Subject(msg)));
  }

  /** A subject that is not conventional, does not start with "merge",
      holds neither "bump" nor "typo" and starts with no rule's word gets the
      default type, chore. */
  lemma FallbackIsChore(msg: string)
    requires Subject(msg) != [] && !IsConventional(Lower(Subject(msg))) && !("merge" <= Lower(Subject(msg)))
    requires !Contains(Lower(Subject(msg)), "bump") && !Contains(Lower(Subject(msg)), "typo")
    requires forall k :: 0 <= k < |HistoryRules| ==> !Fires(HistoryRules[k], Lower(Subject(msg)))
    ensures "chore: " <= CleanMessage(msg)
  {
    var kind := RewrittenStartsWith(msg);
    NoneFires(HistoryRules, HistoryFallback, Lower(Subject(msg)));
    assert kind == "chore";
    assert kind + ": " == "chore: ";
  }

  /** Running the callback on its own output changes nothing: a rewritten
      message starts with a conventional subject. */
  lemma CleanIdempotent(msg: string)
    ensures CleanMessage(CleanMessage(msg)) == CleanMessage(msg)
  {
    if Retyped(msg) {
      RetypedIsKept(msg);
    } else {
      KeptOrEmpty(msg);
    }
  }

  /** A rewritten message is kept on the second run: its subject is a typed
      line, which is conventional. */
  lemma RetypedIsKept(msg: string)
    requires Retyped(msg)
    ensures CleanMessage(CleanMessage(msg)) == CleanMessage(msg)
  {
    var c := CleanMessage(msg);
    var kind := Retype(Lower(Subject(msg)));
    assert Subject(c) == kind + ": " + Subject(msg) by {
      var _ := RewrittenShape(msg);
    }
    TypedLineIsConventional(kind, Subject(msg));
    ConventionalUnchanged(c);
  }

  /** A message that is not rewritten comes back as it is, or empty. */
  lemma KeptOrEmpty(msg: string)
    requires !Retyped(msg)
    ensures CleanMessage(msg) == msg || CleanMessage(msg) == []
  {
  }

  /** `kind: subject` followed by nothing or by a line boundary has that line
      as its subject, and the line is conventional, so it is kept. */
  lemma RewrittenIsConventional(kind: string, subject: string, tail: string)
    requires kind in {"feat", "fix", "chore", "refactor", "docs", "style", "test"}
    requires subject != [] && NoLineBoundary(subject) && !IsPySpace(subject[|subject| - 1])
    requires tail == [] || tail[0] == '\n'
    ensures CleanMessage(kind + ": " + subject + tail) == kind + ": " + subject + tail
  {
    var line := kind + ": " + subject;
    TypedLineIsSubject(kind, subject, tail);
    TypedLineIsConventional(kind, subject);
    assert Subject(line + tail) == line;
  }

  lemma TypedLineIsSubject(kind: string, subject: string, tail: string)
    requires kind in {"feat", "fix", "chore", "refactor", "docs", "style", "test"}
    requires subject != [] && NoLineBoundary(subject) && !IsPySpace(subject[|subject| - 1])
    requires tail == [] || tail[0] == '\n'
    ensures Subject(kind + ": " + subject + tail) == kind + ": " + subject
  {
    var line := kind + ": " + subject;
    var r := line + tail;
    TypedLineHasNoBoundary(kind, subject);
    LineLengthOfPrefix(line, r);
    assert r[..|line|] == line;
    assert line[0] == kind[0] && line[|line| - 1] == subject[|subject| - 1];
    StripOfStripped(line, IsPySpace);
  }

  lemma TypedLineHasNoBoundary(kind: string, subject: string)
    requires kind in {"feat", "fix", "chore", "refactor", "docs", "style", "test"}
    requires NoLineBoundary(subject)
    ensures NoLineBoundary(kind + ": " + subject)
  {
    var line := kind + ": " + subject;
    forall i | 0 <= i < |line| ensures !IsLineBoundary(line[i]) {
      if i >= |kind| + 2 {
        assert line[i] == subject[i - |kind| - 2];
      }
    }
  }

  lemma TypedLineIsConventional(kind: string, subject: string)
    requires kind in {"feat", "fix", "chore", "refactor", "docs", "style", "test"}
    ensures IsConventional(Lower(kind + ": " + subject))
  {
    var t := RetypeKindFacts(kind);
    LowerConcat(kind, ": " + subject);
    LowerConcat(": ", subject);
    assert Lower(kind + ": " + subject) == HistoryTypes[t] + (": " + Lower(subject));
    TypeThenColon(t, ": " + Lower(subject));
  }

  /** Each type `Retype` gives is one of the pattern's types, in lower case. */
  lemma RetypeKindFacts(kind: string) returns (t: nat)
    requires kind in {"feat", "fix", "chore", "refactor", "docs", "style", "test"}
    ensures t < |HistoryTypes| && HistoryTypes[t] == kind && Lower(kind) == kind
  {
    t := if kind == "feat" then 0 else if kind == "fix" then 1 else if kind == "docs" then 2
      else if kind == "style" then 3 else if kind == "refactor" then 4 else if kind == "test" then 6
      else 7;
    LowerAsciiWord(kind);
  }

  /** A type followed at once by a colon matches the pattern. */
  lemma TypeThenColon(t: nat, r: string)
    requires t < |HistoryTypes| && |r| > 0 && r[0] == ':'
    ensures IsConventional(HistoryTypes[t] + r)
  {
    assert (HistoryTypes[t] + r)[|HistoryTypes[t]|..] == r;
  }
}
