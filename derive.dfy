/** `derive_qa`: one sentence becomes a question and an answer, by the first
    of its rules that applies. The rules are: the colon-or-dash definition,
    `X is Y`, `X are Y`, the defining verbs, and finally a topic question
    built from the first words. */
module Derive {
  import opened PyStr
  import opened Subject
  import opened Patterns
  import opened Tokens

  datatype QA = QA(question: string, answer: string)

  /** The rule that produces the card, with its normalised subject. */
  datatype Rule =
    | ColonRule(subject: string, verb: string, rest: string)
    | CopulaRule(subject: string, verb: string, rest: string)
    | DefiningRule(subject: string, verb: string, rest: string)
    | TopicRule(topic: string)

  // ---------------------------------------------------------------------
  // The verb of the colon rule

  /** `\b` at position `p` (with ASCII word characters). */
  predicate Boundary(s: string, p: nat)
    requires p <= |s|
  {
    (p > 0 && IsWordChar(s[p - 1])) != (p < |s| && IsWordChar(s[p]))
  }

  /** `$` at position `p`: the end, or just before a final line break. */
  predicate EndAt(s: string, p: nat) {
    p == |s| || (p + 1 == |s| && s[p] == '\n')
  }

  /** `re.search(r'\b(s|S)\b$', subj)` finds something. */
  predicate LoneSAtEnd(subj: string) {
    exists p :: 0 <= p < |subj| && (subj[p] == 's' || subj[p] == 'S')
      && Boundary(subj, p) && Boundary(subj, p + 1) && EndAt(subj, p + 1)
  }

  /** `re.search(r'\band\b', subj)` finds something. */
  predicate HasWordAnd(subj: string) {
    exists p :: 0 <= p && p + 3 <= |subj| && subj[p..p + 3] == "and"
      && Boundary(subj, p) && Boundary(subj, p + 3)
  }

  predicate EndsWithS(subj: string) {
    subj != [] && (subj[|subj| - 1] == 's' || subj[|subj| - 1] == 'S')
  }

  /** `'are' if re.search(r'\b(s|S)\b$|\band\b', subj) or
      subj.lower().endswith('s') else 'is'`. */
  function ColonVerb(subj: string): string {
    if LoneSAtEnd(subj) || HasWordAnd(subj) || (subj != [] && Lower(subj[|subj| - 1]) == 's')
    then "are" else "is"
  }

  /** On a subject without a final line break the verb is `are` exactly
      when the subject ends in `s` or `S` or holds the word `and`: the lone
      `s` test adds nothing to the `endswith('s')` test. */
  lemma ColonVerbSpec(subj: string)
    requires NoTrailingNewline(subj)
    ensures ColonVerb(subj) == "are" <==> EndsWithS(subj) || HasWordAnd(subj)
    ensures ColonVerb(subj) == "are" || ColonVerb(subj) == "is"
  {
    if LoneSAtEnd(subj) {
      var p :| 0 <= p < |subj| && (subj[p] == 's' || subj[p] == 'S')
        && Boundary(subj, p) && Boundary(subj, p + 1) && EndAt(subj, p + 1);
      assert p + 1 == |subj|;
    }
  }

  // ---------------------------------------------------------------------
  // Rule selection and the card of each rule

  /** The first rule that applies to the stripped sentence `s`. */
  function SelectRule(s: string): (r: Rule)
    requires IsStripped(s)
    ensures RuleWellFormed(r)
    ensures !r.TopicRule? ==> RestOf(s, r.rest)
    ensures r.ColonRule? ==> r.subject != [] && (r.verb == "is" || r.verb == "are")
    ensures r.CopulaRule? ==> r.verb == "is" || r.verb == "are"
    ensures r.DefiningRule? ==> r.verb in DefiningVerbs
  {
    var colon := ColonMatch(s);
    if colon.Some? && NormalizeSubject(colon.value.term) != [] then
      var subj := NormalizeSubject(colon.value.term);
      ColonRule(subj, ColonVerb(subj), colon.value.rest)
    else LaterRule(s)
  }

  /** The rules after the colon rule, in order. */
  function LaterRule(s: string): (r: Rule)
    requires IsStripped(s)
    ensures !r.ColonRule?
    ensures !r.TopicRule? ==> RestOf(s, r.rest)
    ensures r.CopulaRule? ==> r.verb == "is" || r.verb == "are"
    ensures r.DefiningRule? ==> r.verb in DefiningVerbs
  {
    if CopulaMatch(s, "is").Some? then
      var m := CopulaMatch(s, "is").value;
      CopulaRule(NormalizeSubject(m.subject), "is", m.rest)
    else if CopulaMatch(s, "are").Some? then
      var m := CopulaMatch(s, "are").value;
      CopulaRule(NormalizeSubject(m.subject), "are", m.rest)
    else if DefinitionMatch(s).Some? then
      var m := DefinitionMatch(s).value;
      DefiningRule(NormalizeSubject(m.subject), m.verb, m.rest)
    else TopicRule(Topic(s))
  }

  /** The topic of the last rule: the normalised first five words, or
      `this topic` when there are none. */
  function Topic(s: string): (r: string)
    ensures Words(s) == [] ==> r == "This topic"
  {
    var ws := Words(s);
    NormalizeThisTopic();
    NormalizeSubject(if ws == [] then "this topic" else FirstWords(ws))
  }

  /** `' '.join(words[:5])`. */
  function FirstWords(ws: seq<string>): string {
    JoinSpace(ws[..Min(5, |ws|)])
  }

  function TopicVerb(topic: string): string {
    if topic != [] && topic[|topic| - 1] == 's' then "are" else "is"
  }

  /** The question and answer of a rule, before truncation. Every template
      starts its question with `What ` and, for a non-empty sentence and a
      well-formed rule, gives a non-empty answer. */
  function Card(s: string, rule: Rule): (r: QA)
    ensures s != [] && RuleWellFormed(rule) ==> CardOk(r)
  {
    match rule
    case ColonRule(subj, verb, rest) =>
      ColonAnswerNonEmpty(subj, verb, rest);
      WhatLead("What " + verb + " " + subj + "?", verb + " " + subj + "?");
      QA("What " + verb + " " + subj + "?", Strip(subj + " " + verb + " " + rest))
    case CopulaRule(subj, verb, rest) =>
      WhatLead("What " + verb + " " + subj + "?", verb + " " + subj + "?");
      QA("What " + verb + " " + subj + "?", subj + " " + verb + " " + rest)
    case DefiningRule(subj, verb, rest) =>
      if verb == "stands for" then
        WhatLead("What does " + subj + " stand for?", "does " + subj + " stand for?");
        QA("What does " + subj + " stand for?", subj + " stands for " + rest)
      else
        WhatLead("What is " + subj + "?", "is " + subj + "?");
        QA("What is " + subj + "?", subj + " " + verb + " " + rest)
    case TopicRule(topic) =>
      WhatLead("What " + TopicVerb(topic) + " " + topic + "?", TopicVerb(topic) + " " + topic + "?");
      QA("What " + TopicVerb(topic) + " " + topic + "?", s)
  }

  /** `derive_qa(sentence)`: `None` for a sentence shorter than 10
      characters after `strip()`, otherwise the card of the first rule that
      applies, with the question cut to 120 and the answer to 300
      characters. */
  function DeriveQa(sentence: string): (r: Option<QA>)
    ensures r.None? <==> |Strip(sentence)| < 10
  {
    var s := Strip(sentence);
    StripIsStripped(sentence);
    if |s| < 10 then None
    else
      var qa := Card(s, SelectRule(s));
      Some(QA(Take(qa.question, 120), Take(qa.answer, 300)))
  }

  // ---------------------------------------------------------------------
  // Properties

  /** Only an all-whitespace text strips to nothing. */
  lemma StripAllSpace(x: string)
    requires Strip(x) == []
    ensures forall i :: 0 <= i < |x| ==> IsSpace(x[i])
  {
  }

  /** The colon rule's answer is never empty: its rest holds a non-space
      character. */
  lemma ColonAnswerNonEmpty(subj: string, verb: string, rest: string)
    ensures rest != [] && !IsSpace(rest[0]) ==> Strip(subj + " " + verb + " " + rest) != []
  {
    var x := subj + " " + verb + " " + rest;
    if rest != [] && !IsSpace(rest[0]) {
      assert x[|x| - |rest|] == rest[0];
      if Strip(x) == [] {
        StripAllSpace(x);
      }
    }
  }

  /** A rule whose card the templates can build: the colon rule's rest
      starts with a non-space character. */
  predicate RuleWellFormed(rule: Rule) {
    rule.ColonRule? ==> rule.rest != [] && !IsSpace(rule.rest[0])
  }

  lemma WhatLead(q: string, x: string)
    requires q == "What " + x
    ensures 5 <= |q| && q[..5] == "What "
  {
  }

  /** A card opens its question with `What ` and has a non-empty answer. */
  predicate CardOk(c: QA) {
    5 <= |c.question| && c.question[..5] == "What " && c.answer != []
  }

  /** Every card has a question of 5 to 120 characters starting with
      `What ` and an answer of 1 to 300 characters. */
  lemma DeriveQaBounds(sentence: string)
    requires DeriveQa(sentence).Some?
    ensures var qa := DeriveQa(sentence).value;
      5 <= |qa.question| <= 120 && qa.question[..5] == "What "
      && 1 <= |qa.answer| <= 300
  {
    var s := Strip(sentence);
    StripIsStripped(sentence);
    var rule := SelectRule(s);
    var c := Card(s, rule);
    assert DeriveQa(sentence).value == QA(Take(c.question, 120), Take(c.answer, 300));
    assert Take(c.question, 120)[..5] == c.question[..5];
  }

  /** The rules are tried in order: a rule is used exactly when it applies
      and no earlier rule does. The colon rule applies only when the
      normalised term is not empty. */
  lemma RulePrecedence(s: string)
    requires IsStripped(s)
    ensures var r := SelectRule(s);
      var colon := ColonMatch(s).Some? && NormalizeSubject(ColonMatch(s).value.term) != [];
      (r.ColonRule? <==> colon)
      && (r.CopulaRule? && r.verb == "is" <==> !colon && CopulaMatch(s, "is").Some?)
      && (r.CopulaRule? && r.verb == "are" <==>
            !colon && CopulaMatch(s, "is").None? && CopulaMatch(s, "are").Some?)
      && (r.DefiningRule? <==>
            !colon && CopulaMatch(s, "is").None? && CopulaMatch(s, "are").None?
            && DefinitionMatch(s).Some?)
      && (r.TopicRule? <==>
            !colon && CopulaMatch(s, "is").None? && CopulaMatch(s, "are").None?
            && DefinitionMatch(s).None?)
  {
  }

  /** Text without a line break, such as every sentence of `clean_text`
      output, never reaches the `is defined as` alternative: the `is` rule
      takes such sentences first. */
  lemma NoIsDefinedAsRule(s: string)
    requires IsStripped(s) && NoNewlineFrom(s, 0)
    ensures !(SelectRule(s).DefiningRule? && SelectRule(s).verb == "is defined as")
  {
    var r := SelectRule(s);
    if r.DefiningRule? && r.verb == "is defined as" {
      RulePrecedence(s);
      assert r.verb == DefinitionMatch(s).value.verb;
      IsDefinedAsShadowed(s);
      assert false;
    }
  }

  /** The topic rule answers with the sentence itself. */
  lemma TopicAnswer(sentence: string)
    requires DeriveQa(sentence).Some?
    requires SelectRule(Strip(sentence)).TopicRule?
    ensures DeriveQa(sentence).value.answer == Take(Strip(sentence), 300)
  {
    StripIsStripped(sentence);
  }

  lemma LetterDiffers(s: string, w: string, k: nat)
    requires k < |s| && k < |w| && Lower(s[k]) != w[k]
    ensures !MatchesAt(s, 0, w)
  {
  }

  lemma TrimThisTopic()
    ensures TrimSubject("this topic") == "this topic"
  {
    var t := "this topic";
    assert Strip(t) == t by {
      assert t[0] == 't' && t[|t| - 1] == 'c';
      StripByNoop(t, IsSpace);
    }
    assert StripBy(t, IsTrimChar) == t by {
      assert t[0] == 't' && t[|t| - 1] == 'c';
      StripByNoop(t, IsTrimChar);
    }
  }

  lemma NoPrefixThisTopic()
    ensures DropArticle(DropContextClause("this topic")) == "this topic"
  {
    var t := "this topic";
    assert t[0] == 't' && t[2] == 'i';
    LetterDiffers(t, "in", 0);
    LetterDiffers(t, "on", 0);
    LetterDiffers(t, "at", 0);
    LetterDiffers(t, "during", 0);
    LetterDiffers(t, "within", 0);
    LetterDiffers(t, "from", 0);
    assert ClauseEndAmong(t, ContextWords) == None;
    assert DropContextClause(t) == t;
    LetterDiffers(t, "an", 0);
    LetterDiffers(t, "a", 0);
    LetterDiffers(t, "the", 2);
  }

  lemma CapitalizeThisTopic()
    ensures CapitalizeFirst("this topic") == "This topic"
  {
    var t := "this topic";
    UpperSingle(t[0]);
    assert Upper([t[0]]) == ['T'];
  }

  lemma NormalizeThisTopic()
    ensures NormalizeSubject("this topic") == "This topic"
  {
    TrimThisTopic();
    NoPrefixThisTopic();
    CapitalizeThisTopic();
  }

  /** A sentence with no ASCII letter or digit gets the topic `This topic`
      and the verb `is`, so the question `What is This topic?`. */
  lemma NoWordsQuestion(s: string)
    requires !HasAlnumFrom(s, 0)
    ensures Topic(s) == "This topic"
    ensures TopicVerb(Topic(s)) == "is"
  {
    WordsEmptyIff(s);
    var topic := "This topic";
    assert topic[|topic| - 1] == 'c';
    assert TopicVerb(topic) == "is";
  }
}
