/** `_fallback_flashcards`: the text is split into sentences, each sentence
    goes through `derive_qa`, and the pairs it gives are collected as plain
    question/answer cards until `limit` of them are held. */
module Fallback {
  import opened PyStr
  import opened Tokens
  import opened Derive

  /** A flashcard dict with string keys and string values. */
  type Card = map<string, string>

  function PlainCard(qa: QA): (r: Card)
    ensures r.Keys == {"question", "answer"}
    ensures r["question"] == qa.question && r["answer"] == qa.answer
  {
    map["question" := qa.question, "answer" := qa.answer]
  }

  /** The card one sentence adds: the pair of `derive_qa`, when there is
      one and both of its parts are non-empty. */
  function SentenceCard(s: string): Option<Card> {
    match DeriveQa(s)
    case Some(qa) => if qa.question != [] && qa.answer != [] then Some(PlainCard(qa)) else None
    case None => None
  }

  /** The card of every sentence, if any. */
  function SentenceCards(ss: seq<string>): (r: seq<Option<Card>>)
    ensures |r| == |ss|
  {
    seq(|ss|, i requires 0 <= i < |ss| => SentenceCard(ss[i]))
  }

  /** What `_fallback_flashcards(cleaned, limit)` returns: the first `limit`
      cards of the sentences, in order. That is `min(limit, n)` cards (none
      when `limit <= 0`), where `n` is the number of sentences that give a
      card, and every card has exactly the keys `question` and `answer`
      with non-empty, bounded values. */
  function FallbackCards(cleaned: string, limit: int): (r: seq<Card>)
    ensures var n := CardCount(cleaned);
      |r| == (if limit <= 0 then 0 else if n <= limit then n else limit)
    ensures forall c :: c in r ==> FallbackCardOk(c)
  {
    PrefixCards(SplitSentences(cleaned), limit);
    Prefix(Somes(SentenceCards(SplitSentences(cleaned))), limit)
  }

  /** The number of sentences that give a card. */
  function CardCount(cleaned: string): nat {
    SomeCount(SentenceCards(SplitSentences(cleaned)))
  }

  method FallbackFlashcards(cleaned: string, limit: int) returns (cards: seq<Card>)
    ensures cards == FallbackCards(cleaned, limit)
  {
    var sentences := SplitSentences(cleaned);
    ghost var found := SentenceCards(sentences);
    cards := [];
    var i := 0;
    while i < |sentences|
      invariant 0 <= i <= |sentences|
      invariant cards == Somes(found[..i])
      invariant limit <= 0 ==> cards == []
      invariant limit > 0 ==> |cards| <= limit
    {
      if |cards| >= limit {
        SomesStop(found, i, limit);
        break;
      }
      var qa := DeriveQa(sentences[i]);
      SomesStep(found, i);
      if qa.Some? {
        var q, a := qa.value.question, qa.value.answer;
        if q != [] && a != [] {
          cards := cards + [map["question" := q, "answer" := a]];
        }
      }
      i := i + 1;
    }
    assert found[..|sentences|] == found;
  }

  /** Once the values of the first `i` elements reach the limit, they are
      the first `limit` values of all of them. */
  lemma SomesStop(os: seq<Option<Card>>, i: nat, limit: int)
    requires i <= |os|
    requires |Somes(os[..i])| >= limit
    requires limit <= 0 ==> Somes(os[..i]) == []
    requires limit > 0 ==> |Somes(os[..i])| <= limit
    ensures Somes(os[..i]) == Prefix(Somes(os), limit)
  {
    SomesAppend(os[..i], os[i..]);
    assert os[..i] + os[i..] == os;
  }

  // ---------------------------------------------------------------------
  // Properties

  /** A card of the heuristic path: exactly the two keys, a question of 5 to
      120 characters that starts with `What `, and an answer of 1 to 300
      characters. */
  predicate FallbackCardOk(c: Card) {
    c.Keys == {"question", "answer"}
    && 5 <= |c["question"]| <= 120 && c["question"][..5] == "What "
    && 1 <= |c["answer"]| <= 300
  }

  /** A sentence gives a card exactly when it is at least 10 characters long
      after `strip()`: the `if q and a` test never drops a pair. The card
      holds the pair of `derive_qa` and has the heuristic shape. */
  lemma SentenceCardSpec(s: string)
    ensures SentenceCard(s).Some? <==> |Strip(s)| >= 10
    ensures SentenceCard(s).Some? ==>
      SentenceCard(s).value == PlainCard(DeriveQa(s).value) && FallbackCardOk(SentenceCard(s).value)
  {
    if DeriveQa(s).Some? {
      DeriveQaBounds(s);
    }
  }

  /** The first `limit` cards of the sentences `ss`: `min(limit, n)` of
      them, `n` being the number of sentences that give a card, each with
      the heuristic shape. */
  lemma PrefixCards(ss: seq<string>, limit: int)
    ensures var found := SentenceCards(ss);
      var r := Prefix(Somes(found), limit);
      var n := SomeCount(found);
      |r| == (if limit <= 0 then 0 else if n <= limit then n else limit)
      && forall c :: c in r ==> FallbackCardOk(c)
  {
    var found := SentenceCards(ss);
    forall i | 0 <= i < |found| && found[i].Some? ensures FallbackCardOk(found[i].value) {
      SentenceCardSpec(ss[i]);
    }
    SomesAll(found, FallbackCardOk);
    SomesCount(found);
    var all := Somes(found);
    var r := Prefix(all, limit);
    forall c | c in r ensures FallbackCardOk(c) {
      var k :| 0 <= k < |r| && r[k] == c;
      assert c == all[k];
    }
  }

  /** The cards come in sentence order: the card of an accepted sentence `j`
      is at the index counting the accepted sentences before it, when that
      index is below `limit`. */
  lemma FallbackOrder(cleaned: string, limit: int, j: nat)
    requires var ss := SplitSentences(cleaned);
      j < |ss| && |Strip(ss[j])| >= 10 && SomeCount(SentenceCards(ss)[..j]) < limit
    ensures var ss := SplitSentences(cleaned);
      var k := SomeCount(SentenceCards(ss)[..j]);
      k < |FallbackCards(cleaned, limit)|
      && FallbackCards(cleaned, limit)[k] == PlainCard(DeriveQa(ss[j]).value)
  {
    var ss := SplitSentences(cleaned);
    SentenceCardSpec(ss[j]);
    SomesOrder(SentenceCards(ss), j);
  }

  /** A text shorter than 10 characters gives no card at all, although it
      may well be non-empty. */
  lemma ShortTextNoCards(cleaned: string, limit: int)
    requires |cleaned| < 10
    ensures FallbackCards(cleaned, limit) == []
  {
    var ss := SplitSentences(cleaned);
    var found := SentenceCards(ss);
    SplitPieceLength(cleaned);
    forall i | 0 <= i < |found| ensures found[i].None? {
      assert ss[i] in ss;
      assert |Strip(ss[i])| <= |ss[i]|;
      SentenceCardSpec(ss[i]);
    }
    SomesCount(found);
    NoSomes(found);
  }
}
