/** Ordered keyword rules, the shape shared by the three commit-message
    rewriters: each rule tests a lower-cased subject for a prefix or a
    substring out of a word list, the first rule that fires decides the
    commit type, and a fallback covers the case where none fires. */
module Classifier {
  import opened Strings

  /** `s.startswith(w)` (or `re.match('^(w1|w2|…)', s)`) versus `w in s`. */
  datatype Test = Prefix | Infix

  datatype Rule = Rule(test: Test, words: seq<string>, kind: string)

  predicate Fires(rule: Rule, s: string) {
    match rule.test
    case Prefix => StartsWithAny(s, rule.words)
    case Infix => ContainsAny(s, rule.words)
  }

  /** Index of the first rule from `from` on that fires on `s`, or `|rules|`
      when none does. */
  function FirstFiringFrom(rules: seq<Rule>, s: string, from: nat): (i: nat)
    requires from <= |rules|
    ensures from <= i <= |rules|
    ensures i < |rules| ==> Fires(rules[i], s)
    ensures forall k :: from <= k < i ==> !Fires(rules[k], s)
    decreases |rules| - from
  {
    if from == |rules| then from
    else if Fires(rules[from], s) then from
    else FirstFiringFrom(rules, s, from + 1)
  }

  /** The `if … elif … else` chain: the kind of the first rule that fires,
      the fallback when none fires. */
  function Classify(rules: seq<Rule>, fallback: string, s: string): (kind: string)
    ensures (exists i :: 0 <= i < |rules| && Fires(rules[i], s)) || kind == fallback
    ensures forall i :: 0 <= i < |rules| && Fires(rules[i], s) && (forall k :: 0 <= k < i ==> !Fires(rules[k], s)) ==>
                          kind == rules[i].kind
  {
    var i := FirstFiringFrom(rules, s, 0);
    if i < |rules| then rules[i].kind else fallback
  }

  /** The kinds a chain can produce: a rule's kind or the fallback. */
  lemma ClassifyRange(rules: seq<Rule>, fallback: string, s: string)
    ensures Classify(rules, fallback, s) == fallback
         || exists i :: 0 <= i < |rules| && Classify(rules, fallback, s) == rules[i].kind
  {
  }

  /** When no rule fires the fallback is the answer. */
  lemma NoneFires(rules: seq<Rule>, fallback: string, s: string)
    requires forall k :: 0 <= k < |rules| ==> !Fires(rules[k], s)
    ensures Classify(rules, fallback, s) == fallback
  {
  }

  /** A word that prefixes `s` fires a `Prefix` rule holding it. */
  lemma PrefixFires(rule: Rule, k: nat, s: string)
    requires rule.test == Prefix && k < |rule.words| && rule.words[k] <= s
    ensures Fires(rule, s)
  {
  }

  /** A word that occurs in `s` fires an `Infix` rule holding it. */
  lemma InfixFires(rule: Rule, k: nat, x: string, y: string)
    requires rule.test == Infix && k < |rule.words|
    ensures Fires(rule, x + rule.words[k] + y)
  {
    ContainsMiddle(x, rule.words[k], y);
  }
}
