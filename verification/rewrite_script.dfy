/** The message rewriting of `generate_rewrite_script.py`: `clean_message`
    turns a commit message into a one-line conventional-commit subject, and
    `format_final_message` polishes it.  Both rely on the pattern
    `^(\w+)(\(.*\))?: (.*)`, written out here as `MatchConventional` with
    Python's backtracking semantics; `\w` is read over ASCII and `.` is any
    character but '\n'. */
module RewriteScript {
  import opened Wrappers
  import opened Strings
  import opened Classifier

  // ---------------------------------------------------------------------------
  // The conventional-commit pattern
  // ---------------------------------------------------------------------------

  /** Length of the leading run of `\w` characters.  The group `(\w+)` is
      greedy and never gives characters back: what follows it must be '(' or
      ':', and neither is a word character. */
  function WordRun(s: string): (n: nat)
    ensures n <= |s|
    ensures forall i :: 0 <= i < n ==> IsWordChar(s[i])
    ensures n == |s| || !IsWordChar(s[n])
    decreases |s|
  {
    if |s| == 0 || !IsWordChar(s[0]) then 0 else 1 + WordRun(s[1..])
  }

  predicate AllWordChars(s: string) {
    forall i :: 0 <= i < |s| ==> IsWordChar(s[i])
  }

  /** In `r`, the text after the type, the group `(\(.*\))` can close at
      index `j` and be followed by ": ". */
  predicate ScopeEndsAt(r: string, j: int) {
    && 1 <= j && j + 2 < |r|
    && r[0] == '(' && r[j] == ')' && r[j + 1] == ':' && r[j + 2] == ' '
    && forall i :: 1 <= i < j ==> r[i] != '\n'
  }

  /** The greedy `.*` tries the longest scope first: the largest `j <= hi`
      at which the scope can close. */
  function LastScopeEnd(r: string, hi: int): (j: Option<nat>)
    ensures j.Some? ==> j.value <= hi && ScopeEndsAt(r, j.value)
    ensures j.Some? ==> forall k :: j.value < k <= hi ==> !ScopeEndsAt(r, k)
    ensures j.None? ==> forall k :: k <= hi ==> !ScopeEndsAt(r, k)
    decreases hi
  {
    if hi < 1 then None
    else if ScopeEndsAt(r, hi) then Some(hi)
    else LastScopeEnd(r, hi - 1)
  }

  /** Groups 2 and 3 of a successful match, read from the text after the
      type; `scope` is "" when group 2 did not participate. */
  datatype Tail = Tail(scope: string, content: string)

  function TailText(t: Tail): string {
    t.scope + ": " + t.content
  }

  /** `(\(.*\))?: (.*)` matched at the start of `r`: the optional group is
      tried first, with its greedy `.*`, before it is skipped. */
  function MatchTail(r: string): (t: Option<Tail>)
    ensures t.Some? <==> (": " <= r || exists j :: ScopeEndsAt(r, j))
    ensures t.Some? ==> TailText(t.value) <= r && '\n' !in t.value.content
    ensures t.Some? ==> |TailText(t.value)| == |r| || r[|TailText(t.value)|] == '\n'
    ensures t.Some? && t.value.scope != [] ==>
              ScopeEndsAt(r, |t.value.scope| - 1) && forall k :: |t.value.scope| - 1 < k ==> !ScopeEndsAt(r, k)
    ensures t.Some? && t.value.scope == [] ==> forall k :: !ScopeEndsAt(r, k)
  {
    match LastScopeEnd(r, |r| - 1)
    case Some(j) =>
      var rest := r[j + 3..];
      var content := UntilChar(rest, '\n');
      assert r == r[..j + 1] + ": " + rest;
      Some(Tail(r[..j + 1], content))
    case None =>
      if ": " <= r then
        var rest := r[2..];
        var content := UntilChar(rest, '\n');
        assert r == [] + ": " + rest;
        Some(Tail([], content))
      else None
  }

  /** The three groups of a successful match. */
  datatype Conventional = Conventional(kind: string, scope: string, content: string)

  function Assemble(c: Conventional): string {
    c.kind + TailText(Tail(c.scope, c.content))
  }

  /** `s` splits into a non-empty run of word characters `k` and a text `t`
      that starts with no word character: the only way `(\w+)` can end. */
  predicate TypeSplit(s: string, k: string, t: string) {
    s == k + t && k != [] && AllWordChars(k) && (t == [] || !IsWordChar(t[0]))
  }

  /** `re.match(r'^(\w+)(\(.*\))?: (.*)', s)`: it matches exactly when `s`
      splits into a type and a text the rest of the pattern accepts, and its
      groups are then that type and the groups of the text. */
  function MatchConventional(s: string): (m: Option<Conventional>)
    ensures m.Some? <==> exists k, t :: TypeSplit(s, k, t) && MatchTail(t).Some?
    ensures forall k, t :: TypeSplit(s, k, t) && MatchTail(t).Some? ==>
              m == Some(Conventional(k, MatchTail(t).value.scope, MatchTail(t).value.content))
  {
    var n := WordRun(s);
    WordRunSplit(s);
    if n == 0 then None
    else
      assert TypeSplit(s, s[..n], s[n..]);
      match MatchTail(s[n..])
      case None => None
      case Some(t) => Some(Conventional(s[..n], t.scope, t.content))
  }

  /** The split between type and text is unique: it is where the run of word
      characters ends. */
  lemma WordRunSplit(s: string)
    ensures forall k, t :: TypeSplit(s, k, t) ==> k == s[..WordRun(s)] && t == s[WordRun(s)..]
  {
    forall k, t | TypeSplit(s, k, t)
      ensures k == s[..WordRun(s)] && t == s[WordRun(s)..]
    {
      WordRunOf(k, t);
    }
  }

  /** A match is a prefix of the subject, cut at the end or at a '\n'. */
  lemma MatchIsPrefix(s: string)
    requires MatchConventional(s).Some?
    ensures Assemble(MatchConventional(s).value) <= s
    ensures var a := Assemble(MatchConventional(s).value); |a| == |s| || s[|a|] == '\n'
  {
    var c := MatchConventional(s).value;
    var n := WordRun(s);
    var tt := TailText(MatchTail(s[n..]).value);
    assert Assemble(c) == s[..n] + tt;
    PrefixThroughSplit(s, n, tt);
  }

  lemma PrefixThroughSplit(s: string, n: nat, tt: string)
    requires n <= |s| && tt <= s[n..] && (|tt| == |s[n..]| || s[n..][|tt|] == '\n')
    ensures s[..n] + tt <= s
    ensures |s[..n] + tt| == |s| || s[|s[..n] + tt|] == '\n'
  {
    assert s[..n + |tt|] == s[..n] + s[n..][..|tt|];
  }

  /** A run of word characters followed by a non-word character is exactly
      what `(\w+)` captures. */
  lemma {:induction false} WordRunOf(k: string, rest: string)
    requires AllWordChars(k)
    requires rest == [] || !IsWordChar(rest[0])
    ensures WordRun(k + rest) == |k|
    decreases |k|
  {
    if k != [] {
      assert (k + rest)[1..] == k[1..] + rest;
      WordRunOf(k[1..], rest);
    }
  }

  /** Only the length of the type and the text after it decide the match:
      two strings that agree on both match alike, with their own types. */
  lemma SameRestSameMatch(s: string, t: string)
    requires WordRun(s) == WordRun(t)
    requires s[WordRun(s)..] == t[WordRun(t)..]
    ensures MatchConventional(s).Some? <==> MatchConventional(t).Some?
    ensures MatchConventional(s).Some? ==>
              MatchConventional(t) == Some(MatchConventional(s).value.(kind := t[..WordRun(t)]))
  {
  }

  // ---------------------------------------------------------------------------
  // clean_message
  // ---------------------------------------------------------------------------

  /** The line `clean_message` works on: the message stripped, cut at its
      first '\n', stripped again. */
  function Subject(msg: string): (subject: string)
    ensures IsSubjectLine(subject)
  {
    var line := UntilChar(PyStrip(msg), '\n');
    StripKeepsAbsent(line, IsPySpace, '\n');
    PyStrip(line)
  }

  /** The `startswith` chain, then the `in` chain, in source order. */
  const Rules: seq<Rule> := [
    Rule(Prefix, ["add", "added", "create", "created", "implement", "feat", "new"], "feat"),
    Rule(Prefix, ["fix", "fixed", "resolve", "resolved", "bug", "correct"], "fix"),
    Rule(Prefix, ["update", "updated", "change", "changed", "adjust", "adjusted", "tweak", "modify"], "chore"),
    Rule(Prefix, ["refactor", "refactored", "clean", "cleanup", "reorganize", "move", "extract"], "refactor"),
    Rule(Prefix, ["remove", "removed", "delete", "deleted"], "chore"),
    Rule(Prefix, ["doc", "docs", "document"], "docs"),
    Rule(Prefix, ["style", "styling", "ui", "css"], "style"),
    Rule(Prefix, ["test", "tests"], "test"),
    Rule(Infix, ["readme"], "docs"),
    Rule(Infix, ["merge"], "chore"),
    Rule(Infix, ["initial commit"], "feat")
  ]

  const Fallback := "chore"

  /** Every type the chain can choose: lower-case letters only. */
  predicate IsChainKind(kind: string) {
    kind in {"feat", "fix", "chore", "refactor", "docs", "style", "test"}
  }

  /** A line as `clean_message` leaves it: no '\n', no space at either end. */
  predicate IsSubjectLine(s: string) {
    '\n' !in s && (s == [] || (!IsPySpace(s[0]) && !IsPySpace(s[|s| - 1])))
  }

  /** `clean_message(msg)`: the heuristics below applied to the subject. */
  function CleanMessage(msg: string): string {
    CleanSubject(Subject(msg))
  }

  /** A subject that already matches the pattern keeps its scope and content
      verbatim and gets its type lower-cased; any other subject is prefixed,
      verbatim, with the type the rule chain picks for its lower-cased form. */
  function CleanSubject(subject: string): string {
    match MatchConventional(subject)
    case Some(c) => Lower(c.kind) + c.scope + ": " + c.content
    case None => Classify(Rules, Fallback, Lower(subject)) + ": " + subject
  }

  /** Regrouping a concatenation of three. */
  lemma ConcatAssoc3(a: string, b: string, c: string)
    ensures a + b + c == a + (b + c)
  {
  }

  /** Regrouping a concatenation around the ": " separator. */
  lemma ConcatAssoc(a: string, b: string, c: string)
    ensures a + b + ": " + c == a + (b + ": " + c)
  {
  }

  /** On a single line the match leaves nothing over. */
  lemma MatchCoversLine(s: string)
    requires MatchConventional(s).Some? && '\n' !in s
    ensures Assemble(MatchConventional(s).value) == s
  {
    MatchIsPrefix(s);
  }

  /** A subject that already matches keeps everything after its type
      verbatim; only the type is lower-cased. */
  lemma CleanSubjectKeepsConventional(subject: string)
    requires '\n' !in subject
    requires MatchConventional(subject).Some?
    ensures var c := MatchConventional(subject).value;
      CleanSubject(subject) == Lower(c.kind) + subject[|c.kind|..]
  {
    var c := MatchConventional(subject).value;
    MatchCoversLine(subject);
    var rest := c.scope + ": " + c.content;
    assert subject[|c.kind|..] == rest;
    var low := Lower(c.kind);
    assert CleanSubject(subject) == low + c.scope + ": " + c.content;
    ConcatAssoc(low, c.scope, c.content);
  }

  /** The chain only ever picks one of the seven lower-case types. */
  lemma ChainKinds(s: string)
    ensures IsChainKind(Classify(Rules, Fallback, s))
  {
    var i := FirstFiringFrom(Rules, s, 0);
    if i < |Rules| {
      RuleKindIsChainKind(i);
    }
  }

  /** Each rule's type is one of the seven. */
  lemma RuleKindIsChainKind(i: nat)
    requires i < |Rules|
    ensures IsChainKind(Rules[i].kind)
  {
    if i < 4 {
      assert Rules[i].kind == ["feat", "fix", "chore", "refactor"][i];
    } else if i < 8 {
      assert Rules[i].kind == ["chore", "docs", "style", "test"][i - 4];
    } else {
      assert Rules[i].kind == ["docs", "chore", "feat"][i - 8];
    }
  }

  /** The seven types are non-empty lower-case words. */
  lemma ChainKindIsWord(kind: string)
    requires IsChainKind(kind)
    ensures kind != [] && AllWordChars(kind) && HasNoUpper(kind)
  {
    if kind == "feat" {
    } else if kind == "fix" {
    } else if kind == "chore" {
    } else if kind == "refactor" {
    } else if kind == "docs" {
    } else if kind == "style" {
    } else {
      assert kind == "test";
    }
  }

  /** A subject that does not match is prefixed, verbatim, with one of the
      seven types. */
  lemma CleanSubjectPrefixes(subject: string)
    requires MatchConventional(subject).None?
    ensures exists kind :: IsChainKind(kind) && CleanSubject(subject) == kind + ": " + subject
  {
    ChainKinds(Lower(subject));
  }

  /** The `if … elif` chain: the first rule that fires on the lower-cased
      subject decides the type, whatever the later rules say. */
  lemma RuleDecides(subject: string, k: nat)
    requires MatchConventional(subject).None?
    requires k < |Rules| && Fires(Rules[k], Lower(subject))
    requires forall j :: 0 <= j < k ==> !Fires(Rules[j], Lower(subject))
    ensures CleanSubject(subject) == Rules[k].kind + ": " + subject
  {
  }

  /** The final `else`: when no rule fires the type is "chore". */
  lemma NoRuleIsChore(subject: string)
    requires MatchConventional(subject).None?
    requires forall j :: 0 <= j < |Rules| ==> !Fires(Rules[j], Lower(subject))
    ensures CleanSubject(subject) == "chore: " + subject
  {
    NoneFires(Rules, Fallback, Lower(subject));
  }

  /** The exception to idempotence: a message with no subject becomes
      "chore: ", whose subject "chore:" no longer matches the pattern (it lacks
      the space after the colon), so a second run prefixes it with a type
      again. */
  lemma EmptySubjectNotIdempotent()
    ensures CleanMessage("") == "chore: "
    ensures CleanMessage("chore: ") == "chore: chore:"
    ensures CleanMessage(CleanMessage("")) != CleanMessage("")
  {
    CleanEmpty();
    CleanChore();
    assert |"chore: chore:"| != |"chore: "|;
  }

  lemma CleanChore()
    ensures CleanMessage("chore: ") == "chore: chore:"
  {
    ChoreTwice();
    SubjectOfChore();
    assert CleanSubject("chore:") == "chore: " + "chore:" by {
      ChoreDoesNotMatch();
      LowerOfChore();
      ChoreFiresNoRule();
      NoRuleIsChore("chore:");
    }
  }

  lemma ChoreTwice()
    ensures "chore: " + "chore:" == "chore: chore:"
  {
  }

  lemma LowerOfChore()
    ensures Lower("chore:") == "chore:"
  {
    LowerAsciiWord("chore");
    assert Lower("chore:") == Lower("chore") + [LowerChar(':')];
  }

  /** No rule fires on "chore:": no listed word starts it, and "readme",
      "merge" and "initial commit" each hold a letter it lacks. */
  lemma ChoreFiresNoRule()
    ensures forall j :: 0 <= j < |Rules| ==> !Fires(Rules[j], "chore:")
  {
    forall j | 0 <= j < |Rules| ensures !Fires(Rules[j], "chore:") {
      if j < 8 {
        NoWordStartsChore(j);
      } else if j == 8 {
        NotInChore('a');
        NotContainsMissingChar("chore:", "readme", 2);
      } else if j == 9 {
        NotInChore('m');
        NotContainsMissingChar("chore:", "merge", 0);
      } else {
        NotInChore('i');
        NotContainsMissingChar("chore:", "initial commit", 0);
      }
    }
  }

  lemma NotInChore(c: char)
    requires c !in {'c', 'h', 'o', 'r', 'e', ':'}
    ensures c !in "chore:"
  {
    var s := "chore:";
    forall k | 0 <= k < |s| ensures s[k] != c {
      assert s[k] in {'c', 'h', 'o', 'r', 'e', ':'};
    }
  }

  /** The eight prefix rules: each word differs from "chore:" in one of its
      first three letters. */
  lemma NoWordStartsChore(j: nat)
    requires j < 8
    ensures !Fires(Rules[j], "chore:")
  {
    var words := Rules[j].words;
    forall i | 0 <= i < |words| ensures !(words[i] <= "chore:") {
      var w := words[i];
      assert |w| >= 2 && (w[0] != 'c' || w[1] != 'h' || (|w| > 2 && w[2] != 'o'));
    }
  }

  lemma SubjectOfChore()
    ensures Subject("chore: ") == "chore:"
  {
    var line := "chore:";
    assert line + " " == "chore: ";
    StripOneTrailingSpace(line);
    UntilCharOfPrefix(line, line, '\n');
    StripOfStripped(line, IsPySpace);
  }

  lemma ChoreDoesNotMatch()
    ensures MatchConventional("chore:").None?
  {
    WordRunOf("chore", ":");
    assert "chore:"[5..] == ":";
  }

  lemma CleanEmpty()
    ensures CleanMessage("") == "chore: "
  {
    SubjectOfOneLine("");
    NoRuleFiresOnEmpty();
    NoRuleIsChore("");
  }

  lemma NoRuleFiresOnEmpty()
    ensures forall j :: 0 <= j < |Rules| ==> !Fires(Rules[j], Lower(""))
  {
    assert Lower("") == [];
    forall j | 0 <= j < |Rules| ensures !Fires(Rules[j], []) {
      EmptyFiresNoRule(Rules[j]);
    }
  }

  /** A rule without an empty word fires on nothing in the empty string. */
  lemma EmptyFiresNoRule(rule: Rule)
    requires forall i :: 0 <= i < |rule.words| ==> rule.words[i] != []
    ensures !Fires(rule, [])
  {
  }

  /** One trailing space after a stripped line is all `strip` removes. */
  lemma StripOneTrailingSpace(line: string)
    requires line != [] && !IsPySpace(line[0]) && !IsPySpace(line[|line| - 1])
    ensures PyStrip(line + " ") == line
  {
    var s := line + " ";
    assert s[0] == line[0];
    assert TrimStart(s, IsPySpace) == s;
    assert s[|s| - 1] == ' ' && s[..|s| - 1] == line;
    assert TrimEnd(s, IsPySpace) == TrimEnd(line, IsPySpace) == line;
    assert PyStrip(s) == TrimEnd(TrimStart(s, IsPySpace), IsPySpace);
  }

  /** A line with no '\n' and no space at its ends is its own subject. */
  lemma SubjectOfOneLine(line: string)
    requires IsSubjectLine(line)
    ensures Subject(line) == line
  {
    StripOfStripped(line, IsPySpace);
    UntilCharOfPrefix(line, line, '\n');
  }

  /** Only the first non-blank line counts: whatever follows its '\n' is
      ignored. */
  lemma OnlyFirstLineMatters(line: string, tail: string)
    requires line != [] && IsSubjectLine(line)
    ensures Subject(line + "\n" + tail) == line
    ensures CleanMessage(line + "\n" + tail) == CleanMessage(line)
  {
    SubjectOfOneLine(line);
    var msg := line + "\n" + tail;
    var stripped := StripKeepsFirstLine(line, tail);
    UntilCharOfPrefix(line, stripped, '\n');
  }

  /** Stripping a message whose first line has no space at its ends keeps
      that line and the '\n' after it, unless nothing but spaces follows. */
  lemma StripKeepsFirstLine(line: string, tail: string) returns (stripped: string)
    requires line != [] && IsSubjectLine(line)
    ensures stripped == PyStrip(line + "\n" + tail)
    ensures line <= stripped && (|stripped| == |line| || stripped[|line|] == '\n')
  {
    var msg := line + "\n" + tail;
    var t := TrimStart(msg, IsPySpace);
    assert t == msg;
    stripped := TrimEnd(t, IsPySpace);
    assert msg[|line| - 1] == line[|line| - 1];
    assert |stripped| >= |line|;
    assert stripped[..|line|] == line;
  }

  /** Lower-casing keeps word characters word characters. */
  lemma LowerKeepsWordChars(k: string)
    requires AllWordChars(k)
    ensures AllWordChars(Lower(k)) && |Lower(k)| == |k|
  {
  }

  /** A string with no upper-case letter is its own lower-case form. */
  lemma LowerOfLower(s: string)
    requires HasNoUpper(s)
    ensures Lower(s) == s
  {
  }

  /** The cleaned subject split at the end of its type: a lower-case run of
      word characters, then a tail the rest of the pattern accepts, with no
      '\n' and, when the subject is not empty, no trailing space. */
  lemma CleanedParts(subject: string) returns (kind: string, rest: string)
    requires IsSubjectLine(subject)
    ensures CleanSubject(subject) == kind + rest
    ensures kind != [] && AllWordChars(kind) && HasNoUpper(kind)
    ensures rest != [] && !IsWordChar(rest[0]) && '\n' !in rest
    ensures MatchTail(rest).Some?
    ensures subject != [] ==> !IsPySpace(rest[|rest| - 1])
  {
    if MatchConventional(subject).Some? {
      kind, rest := MatchedParts(subject);
    } else {
      kind, rest := PrefixedParts(subject);
    }
  }

  lemma MatchedParts(subject: string) returns (kind: string, rest: string)
    requires IsSubjectLine(subject) && MatchConventional(subject).Some?
    ensures CleanSubject(subject) == kind + rest
    ensures kind != [] && AllWordChars(kind) && HasNoUpper(kind)
    ensures rest != [] && !IsWordChar(rest[0]) && '\n' !in rest
    ensures MatchTail(rest).Some?
    ensures subject != [] ==> !IsPySpace(rest[|rest| - 1])
  {
    var c := MatchConventional(subject).value;
    CleanSubjectKeepsConventional(subject);
    kind := Lower(c.kind);
    rest := subject[|c.kind|..];
    LowerKeepsWordChars(c.kind);
    LowerIsLower(c.kind);
    assert rest == subject[WordRun(subject)..];
  }

  lemma PrefixedParts(subject: string) returns (kind: string, rest: string)
    requires IsSubjectLine(subject) && MatchConventional(subject).None?
    ensures CleanSubject(subject) == kind + rest
    ensures kind != [] && AllWordChars(kind) && HasNoUpper(kind)
    ensures rest != [] && !IsWordChar(rest[0]) && '\n' !in rest
    ensures MatchTail(rest).Some?
    ensures subject != [] ==> !IsPySpace(rest[|rest| - 1])
  {
    kind := Classify(Rules, Fallback, Lower(subject));
    ChainKinds(Lower(subject));
    ChainKindIsWord(kind);
    rest := ": " + subject;
    ConcatAssoc3(kind, ": ", subject);
    assert ": " <= rest;
  }

  /** The cleaned subject matches the pattern with its own lower-case type
      and leaves nothing after the match. */
  lemma CleanedMatches(subject: string)
    requires IsSubjectLine(subject)
    ensures var r := CleanSubject(subject); var m := MatchConventional(r);
      m.Some? && HasNoUpper(m.value.kind) && Assemble(m.value) == r
  {
    var kind, rest := CleanedParts(subject);
    var r := CleanSubject(subject);
    WordRunOf(kind, rest);
    assert r[|kind|..] == rest;
    assert r[..|kind|] == kind;
    assert '\n' !in r by {
      assert forall i :: 0 <= i < |kind| ==> r[i] == kind[i];
    }
    MatchCoversLine(r);
  }

  /** `clean_message` is a fixed point on its own output: the result already
      matches the pattern with a lower-case type, so cleaning it again
      changes nothing.  An empty subject is the exception (it yields
      "chore: ", whose strip no longer matches). */
  lemma CleanMessageIdempotent(msg: string)
    requires Subject(msg) != []
    ensures CleanMessage(CleanMessage(msg)) == CleanMessage(msg)
  {
    var subject := Subject(msg);
    CleanedIsSubjectLine(subject);
    SubjectOfOneLine(CleanSubject(subject));
    CleanSubjectFixed(subject);
  }

  /** A cleaned non-empty subject is itself a subject line. */
  lemma CleanedIsSubjectLine(subject: string)
    requires IsSubjectLine(subject) && subject != []
    ensures IsSubjectLine(CleanSubject(subject))
  {
    var kind, rest := CleanedParts(subject);
    WordRunIsOneLine(kind);
    var r := kind + rest;
    assert r[0] == kind[0] && !IsPySpace(r[0]);
    assert r[|r| - 1] == rest[|rest| - 1];
  }

  /** A word run holds no '\n'. */
  lemma WordRunIsOneLine(k: string)
    requires AllWordChars(k)
    ensures '\n' !in k
  {
    forall i | 0 <= i < |k| ensures k[i] != '\n' {
      assert IsWordChar(k[i]);
    }
  }

  /** Cleaning a cleaned subject changes nothing. */
  lemma CleanSubjectFixed(subject: string)
    requires IsSubjectLine(subject) && subject != []
    ensures CleanSubject(CleanSubject(subject)) == CleanSubject(subject)
  {
    var kind, rest := CleanedParts(subject);
    var r := CleanSubject(subject);
    CleanedIsSubjectLine(subject);
    CleanedMatches(subject);
    WordRunOf(kind, rest);
    CleanSubjectKeepsConventional(r);
    assert r[|kind|..] == rest;
    LowerOfLower(kind);
  }

  // ---------------------------------------------------------------------------
  // format_final_message
  // ---------------------------------------------------------------------------

  /** `content[0].lower() + content[1:] if content else ""`. */
  function LowerFirst(s: string): (r: string)
    ensures |r| == |s|
    ensures s != [] ==> r[0] == LowerChar(s[0]) && r[1..] == s[1..]
  {
    if s == [] then [] else [LowerChar(s[0])] + s[1..]
  }

  /** The content after polishing: first letter lowered, then a repeated
      "<type>:" cut off and the remainder stripped.  The repeat test
      lower-cases the content but not the type. */
  function Polish(kind: string, content: string): string {
    var lowered := LowerFirst(content);
    if kind + ":" <= Lower(lowered) then PyStrip(lowered[|kind| + 1..]) else lowered
  }

  /** `format_final_message(msg)`: a message that does not match the pattern
      comes back as it is; one that matches comes back as a single line, every
      later line dropped, that matches again with the same type and scope and
      the polished content. */
  function FormatFinalMessage(msg: string): (r: string)
    ensures MatchConventional(msg).None? ==> r == msg
    ensures MatchConventional(msg).Some? ==> '\n' !in r
    ensures MatchConventional(msg).Some? ==>
              var c := MatchConventional(msg).value;
              MatchConventional(r) == Some(Conventional(c.kind, c.scope, Polish(c.kind, c.content)))
  {
    match MatchConventional(msg)
    case None => msg
    case Some(c) =>
      PolishedMatches(msg);
      MatchOnOneLine(msg);
      PolishKeepsLine(c.kind, c.content);
      NoNewlineInJoin(c.kind, c.scope, Polish(c.kind, c.content));
      c.kind + c.scope + ": " + Polish(c.kind, c.content)
  }

  /** The groups of a match lie on one line: `\w`, the scope's `.*` and the
      content's `.*` all stop at '\n'. */
  lemma MatchOnOneLine(msg: string)
    requires MatchConventional(msg).Some?
    ensures var c := MatchConventional(msg).value;
      '\n' !in c.kind && '\n' !in c.scope && '\n' !in c.content
  {
    var c := MatchConventional(msg).value;
    var r0 := TailOfMatch(msg);
    WordRunIsOneLine(c.kind);
    ScopeOnOneLine(r0, c.scope, c.content);
  }

  /** A matched scope is a prefix of the text that cannot cross a '\n'. */
  lemma ScopeOnOneLine(r: string, scope: string, content: string)
    requires MatchTail(r) == Some(Tail(scope, content))
    ensures '\n' !in scope
  {
    if scope != [] {
      var j := |scope| - 1;
      assert ScopeEndsAt(r, j);
      assert scope + ": " + content <= r;
      forall i | 0 <= i < |scope| ensures scope[i] != '\n' {
        assert scope[i] == (scope + ": " + content)[i] == r[i];
      }
    }
  }

  /** Joining three '\n'-free parts around ": " gives a '\n'-free line. */
  lemma NoNewlineInJoin(kind: string, scope: string, content: string)
    requires '\n' !in kind && '\n' !in scope && '\n' !in content
    ensures '\n' !in kind + scope + ": " + content
  {
    var r := kind + scope + ": " + content;
    forall i | 0 <= i < |r| ensures r[i] != '\n' {
      if i < |kind| {
        assert r[i] == kind[i];
      } else if i < |kind| + |scope| {
        assert r[i] == scope[i - |kind|];
      } else if i >= |kind| + |scope| + 2 {
        assert r[i] == content[i - |kind| - |scope| - 2];
      }
    }
  }

  /** No ")" followed by ": " occurs in `s`, so a scope could not close in it. */
  predicate NoScopeCloser(s: string) {
    forall i :: 0 <= i < |s| - 2 ==> !(s[i] == ')' && s[i + 1] == ':' && s[i + 2] == ' ')
  }

  /** The polished message re-parses into the same type and scope and the
      polished content. */
  lemma PolishedMatches(msg: string)
    requires MatchConventional(msg).Some?
    ensures var c := MatchConventional(msg).value;
      MatchConventional(c.kind + c.scope + ": " + Polish(c.kind, c.content))
        == Some(Conventional(c.kind, c.scope, Polish(c.kind, c.content)))
  {
    var c := MatchConventional(msg).value;
    var r0 := TailOfMatch(msg);
    var p := Polish(c.kind, c.content);
    if c.scope != [] {
      ContentHasNoCloser(r0, c.scope, c.content);
    }
    PolishKeepsLine(c.kind, c.content);
    TailOfPolished(r0, c.scope, c.content, p);
    var r := c.scope + ": " + p;
    assert r[0] == '(' || r[0] == ':' by {
      if c.scope != [] { assert r[0] == c.scope[0]; }
    }
    MatchOfTypeAndTail(c.kind, r, Tail(c.scope, p));
    ConcatAssoc(c.kind, c.scope, p);
  }

  /** The text after the type, from which the tail groups were read. */
  lemma TailOfMatch(msg: string) returns (r0: string)
    requires MatchConventional(msg).Some?
    ensures var c := MatchConventional(msg).value;
      c.kind != [] && AllWordChars(c.kind) && MatchTail(r0) == Some(Tail(c.scope, c.content))
    ensures var c := MatchConventional(msg).value; c.scope == [] || c.scope[0] == '('
  {
    var n := WordRun(msg);
    WordRunSplit(msg);
    assert TypeSplit(msg, msg[..n], msg[n..]);
    r0 := msg[n..];
    var c := MatchConventional(msg).value;
    if c.scope != [] {
      assert r0[..|c.scope|] == c.scope;
    }
  }

  /** A type followed by a tail the rest of the pattern accepts is matched
      with that type and the tail's groups. */
  lemma MatchOfTypeAndTail(kind: string, r: string, t: Tail)
    requires kind != [] && AllWordChars(kind)
    requires r != [] && (r[0] == '(' || r[0] == ':') && MatchTail(r) == Some(t)
    ensures MatchConventional(kind + r) == Some(Conventional(kind, t.scope, t.content))
  {
    assert TypeSplit(kind + r, kind, r);
  }

  /** The greedy scope of a match is the last place a scope can close, so
      none can close inside the content. */
  lemma ContentHasNoCloser(r0: string, scope: string, content: string)
    requires MatchTail(r0) == Some(Tail(scope, content)) && scope != []
    ensures NoScopeCloser(content)
  {
    forall i | 0 <= i < |content| - 2
      ensures !(content[i] == ')' && content[i + 1] == ':' && content[i + 2] == ' ')
    {
      CloserInContent(r0, scope, content, i);
    }
  }

  /** A ")" followed by ": " in the content would be a later place for the
      scope to close. */
  lemma CloserInContent(r0: string, scope: string, content: string, i: int)
    requires scope != [] && ScopeEndsAt(r0, |scope| - 1)
    requires scope + ": " + content <= r0 && '\n' !in content
    requires 0 <= i < |content| - 2
    ensures content[i] == ')' && content[i + 1] == ':' && content[i + 2] == ' ' ==>
              ScopeEndsAt(r0, |scope| + 2 + i)
  {
    var tt := scope + ": " + content;
    var j := |scope| - 1;
    var k := j + 3 + i;
    assert r0[..|tt|] == tt;
    if content[i] == ')' && content[i + 1] == ':' && content[i + 2] == ' ' {
      assert r0[k] == tt[k] == content[i];
      assert r0[k + 1] == tt[k + 1] == content[i + 1];
      assert r0[k + 2] == tt[k + 2] == content[i + 2];
      forall q | 1 <= q < k ensures r0[q] != '\n' {
        if j + 3 <= q {
          assert r0[q] == tt[q] == content[q - j - 3];
        } else if j <= q {
          assert r0[q] == tt[q];
        }
      }
    }
  }

  /** A slice keeps the absence of '\n' and of scope closers. */
  lemma SliceKeepsLine(s: string, k: int, r: string)
    requires SliceAt(s, k, r) && '\n' !in s
    ensures '\n' !in r && (NoScopeCloser(s) ==> NoScopeCloser(r))
  {
    assert forall i :: 0 <= i < |r| ==> r[i] == s[k + i];
  }

  /** Polishing brings in no '\n' and no scope closer. */
  lemma PolishKeepsLine(kind: string, content: string)
    requires '\n' !in content
    ensures '\n' !in Polish(kind, content)
    ensures NoScopeCloser(content) ==> NoScopeCloser(Polish(kind, content))
  {
    var lowered := LowerFirst(content);
    if content != [] {
      assert forall i :: 1 <= i < |lowered| ==> lowered[i] == content[i];
      assert lowered[0] == LowerChar(content[0]);
    }
    assert '\n' !in lowered;
    if kind + ":" <= Lower(lowered) {
      var rest := lowered[|kind| + 1..];
      assert SliceAt(lowered, |kind| + 1, rest);
      SliceKeepsLine(lowered, |kind| + 1, rest);
      var q := PyStrip(rest);
      var k :| SliceAt(rest, k, q);
      SliceKeepsLine(rest, k, q);
    }
  }

  /** The scope found in `r0` is found again before any content that has no
      '\n' and, after a scope, no scope closer. */
  lemma TailOfPolished(r0: string, scope: string, content: string, p: string)
    requires MatchTail(r0) == Some(Tail(scope, content))
    requires '\n' !in p && (scope != [] ==> NoScopeCloser(p))
    ensures MatchTail(scope + ": " + p) == Some(Tail(scope, p))
  {
    if scope == [] {
      PlainTailOf(p);
      assert scope + ": " + p == ": " + p;
    } else {
      ScopedTailOf(r0, scope, p);
    }
  }

  /** Without a scope: ": " and a line re-parses to that line. */
  lemma PlainTailOf(p: string)
    requires '\n' !in p
    ensures MatchTail(": " + p) == Some(Tail([], p))
  {
    var r := ": " + p;
    UntilCharOfPrefix(p, p, '\n');
    assert r[2..] == p;
    forall k ensures !ScopeEndsAt(r, k) {
      NoScopeAfterColon(p, k);
    }
    MatchTailPlain(r);
  }

  /** With the scope of a match: the scope, ": " and a line without a scope
      closer re-parse to that scope and line. */
  lemma ScopedTailOf(r0: string, scope: string, p: string)
    requires scope != [] && ScopeEndsAt(r0, |scope| - 1) && scope + ": " <= r0
    requires '\n' !in p && NoScopeCloser(p)
    ensures MatchTail(scope + ": " + p) == Some(Tail(scope, p))
  {
    var r := scope + ": " + p;
    var j := |scope| - 1;
    UntilCharOfPrefix(p, p, '\n');
    assert ScopeEndsAt(r, j) by {
      assert r[..j + 3] == scope + ": ";
      assert r0[..j + 3] == scope + ": ";
      ScopeEndsAtPrefix(r0, r, j);
    }
    forall k | j < k ensures !ScopeEndsAt(r, k) {
      NoLaterCloser(scope, p, k);
    }
    MatchTailAt(r, j);
    assert r[j + 3..] == p && r[..j + 1] == scope;
  }

  /** A text starting with ": " has no scope to close. */
  lemma NoScopeAfterColon(p: string, k: int)
    ensures !ScopeEndsAt(": " + p, k)
  {
    if 1 <= k && k + 2 < |": " + p| {
      assert (": " + p)[0] == ':';
    }
  }

  /** Where no scope can close, `MatchTail` takes the content after ": ". */
  lemma MatchTailPlain(r: string)
    requires ": " <= r && forall k :: !ScopeEndsAt(r, k)
    ensures MatchTail(r) == Some(Tail([], UntilChar(r[2..], '\n')))
  {
  }

  /** Where the last place a scope can close is `j`, `MatchTail` takes the
      scope up to `j` and the content after the ": " that follows. */
  lemma MatchTailAt(r: string, j: int)
    requires ScopeEndsAt(r, j) && forall k :: j < k ==> !ScopeEndsAt(r, k)
    ensures MatchTail(r) == Some(Tail(r[..j + 1], UntilChar(r[j + 3..], '\n')))
  {
    assert ScopeEndsAt(r, j);
    assert LastScopeEnd(r, |r| - 1) == Some(j);
  }

  /** After a scope and ": ", a text without a scope closer offers no later
      place for the scope to close. */
  lemma NoLaterCloser(scope: string, p: string, k: int)
    requires scope != [] && NoScopeCloser(p) && |scope| - 1 < k
    ensures !ScopeEndsAt(scope + ": " + p, k)
  {
    var r := scope + ": " + p;
    var j := |scope| - 1;
    if k == j + 1 || k == j + 2 {
      assert r[j + 1] == ':' && r[j + 2] == ' ';
    } else if k + 2 < |r| {
      assert r[k] == p[k - j - 3] && r[k + 1] == p[k - j - 2] && r[k + 2] == p[k - j - 1];
    }
  }

  /** Content without a repeated type only has its first letter lowered. */
  lemma PolishLowersFirstLetter(kind: string, content: string)
    requires content != []
    requires !(kind + ":" <= Lower(LowerFirst(content)))
    ensures var p := Polish(kind, content);
      |p| == |content| && p[0] == LowerChar(content[0]) && p[1..] == content[1..]
  {
  }

  /** A repeated type is cut off whatever its case: "feat: feat: x" and
      "feat: Feat: x" both polish to "feat: x" with `x` stripped. */
  lemma PolishDropsRepeatedType(kind: string, w: string, x: string)
    requires kind != [] && Lower(w) == kind
    ensures Polish(kind, w + ":" + x) == PyStrip(x)
  {
    var lowered := LowerFirst(w + ":" + x);
    assert kind + ":" <= Lower(lowered) by {
      forall i | 0 <= i < |kind| + 1
        ensures Lower(lowered)[i] == (kind + ":")[i]
      {
        if i < |kind| {
          assert Lower(w)[i] == LowerChar(w[i]);
        }
      }
    }
    assert lowered[|kind| + 1..] == x;
  }

  /** Whether the scope can close at `j` depends only on the first `j + 3`
      characters. */
  lemma ScopeEndsAtPrefix(r0: string, r: string, j: int)
    requires ScopeEndsAt(r0, j)
    requires j + 3 <= |r| && r[..j + 3] == r0[..j + 3]
    ensures ScopeEndsAt(r, j)
  {
    assert forall i :: 0 <= i < j + 3 ==> r[i] == r0[i] by {
      forall i | 0 <= i < j + 3 ensures r[i] == r0[i] {
        assert r[..j + 3][i] == r0[..j + 3][i];
      }
    }
  }

  /** What the script stores for each commit: the polished cleaned message
      always matches the pattern and its type has no upper-case letter. */
  lemma PipelineIsConventional(msg: string)
    ensures var out := FormatFinalMessage(CleanMessage(msg));
      MatchConventional(out).Some? && HasNoUpper(MatchConventional(out).value.kind)
  {
    CleanedMatches(Subject(msg));
  }
}
