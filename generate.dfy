/** The part of `generate_flashcards_with_ai` that follows the model call:
    the early exit on empty text, the routes to the heuristic fallback, and
    the validation of the parsed items. The model call itself is a
    parameter: its reply, already reduced to a content string, and the JSON
    parser. */
module Generate {
  import opened PyStr
  import opened Clean
  import opened JsonArray
  import opened Fallback

  /** One parsed JSON item: a dict from string keys to string values. */
  type Item = map<string, string>

  /** What `json.loads` gives for the located array text. */
  datatype Parsed =
    | Malformed              // it raises
    | NotAList               // it succeeds with something other than a list
    | Items(items: seq<Item>)

  /** What the model call gives. */
  datatype Reply =
    | Unavailable            // no API key, or no SDK
    | Raised                 // the SDK call raises
    | Answered(content: string)  // the content string; `None` is `""`

  /** `c.get(k, '')`, with a missing key read as the empty string. */
  function Get(c: Item, k: string): (r: string)
    ensures k in c ==> r == c[k]
    ensures k !in c ==> r == []
  {
    if k in c then c[k] else []
  }

  /** `c.get(k1) or c.get(k2)`: the first value that is not empty. */
  function FirstTruthy(c: Item, k1: string, k2: string): (r: string)
    ensures r != [] <==> Get(c, k1) != [] || Get(c, k2) != []
    ensures Get(c, k1) != [] ==> r == Get(c, k1)
  {
    if Get(c, k1) != [] then Get(c, k1) else Get(c, k2)
  }

  // ---------------------------------------------------------------------
  // The correct option letter

  /** `str(x)[:1].upper()` as written: `str.upper()` may turn the one
      character into two. */
  function CorrectOptionAsWritten(x: string): (r: string)
    ensures |r| <= 2
    ensures r == [] <==> x == []
  {
    Upper(Take(x, 1))
  }

  /** The sharp s upper-cases to two letters, so the field holds two
      characters although it is meant to hold one letter. */
  lemma CorrectOptionTwoLetters()
    ensures CorrectOptionAsWritten("\U{DF}") == "SS"
    ensures |CorrectOptionAsWritten("\U{DF}")| == 2
  {
    var x := "\U{DF}";
    assert Take(x, 1) == x;
    assert Upper(x) == UpperChar(x[0]) + Upper([]);
  }

  /** The correct option letter cut to one character after upper-casing. */
  function CorrectOption(x: string): (r: string)
    ensures |r| <= 1
    ensures r == [] <==> x == []
    ensures x != [] && 'a' <= x[0] <= 'z' ==> r == [(x[0] as int - 32) as char]
    ensures x != [] && 'A' <= x[0] <= 'Z' ==> r == [x[0]]
  {
    Take(Upper(Take(x, 1)), 1)
  }

  /** The two agree on every input that does not start with the sharp s. */
  lemma CorrectOptionAgrees(x: string)
    requires x == [] || x[0] != '\U{DF}'
    ensures CorrectOption(x) == CorrectOptionAsWritten(x)
  {
    if x != [] {
      var h := Take(x, 1);
      assert h == [x[0]];
      assert Upper(h) == UpperChar(x[0]) + Upper([]);
    }
  }

  /** As written, the field holds one character or none unless the value
      starts with the sharp s; an ASCII letter is upper-cased. */
  lemma CorrectOptionAsWrittenShort(x: string)
    requires x == [] || x[0] != '\U{DF}'
    ensures |CorrectOptionAsWritten(x)| <= 1
    ensures x != [] && 'a' <= x[0] <= 'z' ==> CorrectOptionAsWritten(x) == [(x[0] as int - 32) as char]
    ensures x != [] && 'A' <= x[0] <= 'Z' ==> CorrectOptionAsWritten(x) == [x[0]]
  {
    CorrectOptionAgrees(x);
  }

  // ---------------------------------------------------------------------
  // Validation of one item

  const OptionKeys: seq<string> := ["option_a", "option_b", "option_c", "option_d"]

  const PlainKeys: set<string> := {"question", "answer"}

  const ChoiceKeys: set<string> :=
    {"question", "answer", "option_a", "option_b", "option_c", "option_d", "correct_option"}

  /** The card kept for item `c`, if any: question and answer (each the
      first non-empty of its two spellings) cut to 255 and 1000 characters,
      and, when `option_a` is non-empty, the four options cut to 255 and the
      correct option letter. */
  function ValidCard(c: Item): (r: Option<Card>)
    ensures r.Some? <==>
      (Get(c, "question") != [] || Get(c, "Question") != [])
      && (Get(c, "answer") != [] || Get(c, "Answer") != [])
    ensures r.Some? ==> ValidCardOk(r.value)
  {
    var q := FirstTruthy(c, "question", "Question");
    var a := FirstTruthy(c, "answer", "Answer");
    if q == [] || a == [] then None
    else
      var card := map["question" := Take(q, 255), "answer" := Take(a, 1000)];
      assert card.Keys == PlainKeys;
      if Get(c, "option_a") == [] then Some(card)
      else
        var full := card["option_a" := Take(Get(c, "option_a"), 255)]
                        ["option_b" := Take(Get(c, "option_b"), 255)]
                        ["option_c" := Take(Get(c, "option_c"), 255)]
                        ["option_d" := Take(Get(c, "option_d"), 255)]
                        ["correct_option" := CorrectOptionAsWritten(Get(c, "correct_option"))];
        assert full.Keys == ChoiceKeys;
        Some(full)
  }

  /** `t` is `s[:n]`: the first `n` characters of `s`, or all of `s` when it
      is shorter. */
  predicate CutTo(t: string, s: string, n: nat) {
    t == s[..if |s| <= n then |s| else n]
  }

  /** `CutTo` pins the stored value: it is the one `Take` computes. */
  lemma CutToIsTake(t: string, s: string, n: nat)
    ensures CutTo(t, s, n) <==> t == Take(s, n)
  {
  }

  /** A kept card: a question of 1 to 255 and an answer of 1 to 1000
      characters, and either no other key, or exactly the four options of
      at most 255 characters and a correct option of at most two. */
  predicate ValidCardOk(v: Card) {
    "question" in v && "answer" in v
    && 1 <= |v["question"]| <= 255 && 1 <= |v["answer"]| <= 1000
    && (v.Keys == PlainKeys
        || (v.Keys == ChoiceKeys && |v["correct_option"]| <= 2
            && forall k :: k in OptionKeys ==> |v[k]| <= 255))
  }

  /** An item is kept exactly when it has a non-empty question and a
      non-empty answer under either spelling; the kept fields are the item's
      own values cut to their lengths, and the option keys are there
      exactly when `option_a` is non-empty. */
  lemma ValidCardSpec(c: Item)
    ensures ValidCard(c).Some? <==>
      (Get(c, "question") != [] || Get(c, "Question") != [])
      && (Get(c, "answer") != [] || Get(c, "Answer") != [])
    ensures ValidCard(c).Some? ==>
      var v := ValidCard(c).value;
      ValidCardOk(v)
      && CutTo(v["question"], FirstTruthy(c, "question", "Question"), 255)
      && CutTo(v["answer"], FirstTruthy(c, "answer", "Answer"), 1000)
      && (v.Keys == ChoiceKeys <==> Get(c, "option_a") != [])
  {
    if ValidCard(c).Some? {
      var v := ValidCard(c).value;
      if Get(c, "option_a") != [] {
        assert v.Keys == ChoiceKeys;
        OptionsCut(c, v);
      } else {
        assert v.Keys == PlainKeys;
        assert ChoiceKeys != PlainKeys by {
          assert "option_a" in ChoiceKeys;
        }
      }
    }
  }

  lemma OptionsCut(c: Item, v: Card)
    requires Get(c, "option_a") != [] && ValidCard(c) == Some(v)
    ensures forall k :: k in OptionKeys ==> k in v && CutTo(v[k], Get(c, k), 255)
    ensures "correct_option" in v && v["correct_option"] == CorrectOptionAsWritten(Get(c, "correct_option"))
  {
    OptionCut(c, v, "option_a");
    OptionCut(c, v, "option_b");
    OptionCut(c, v, "option_c");
    OptionCut(c, v, "option_d");
    forall k | k in OptionKeys ensures k in v && CutTo(v[k], Get(c, k), 255) {
      assert k == OptionKeys[0] || k == OptionKeys[1] || k == OptionKeys[2] || k == OptionKeys[3];
    }
  }

  /** One option of a multiple-choice card is the item's value cut to 255. */
  lemma OptionCut(c: Item, v: Card, k: string)
    requires Get(c, "option_a") != [] && ValidCard(c) == Some(v) && k in OptionKeys
    ensures k in v && CutTo(v[k], Get(c, k), 255)
  {
    assert v[k] == Take(Get(c, k), 255);
  }

  /** A multiple-choice card stores `str(correct_option)[:1].upper()` of the
      item: one character at most unless the value starts with the sharp s,
      and then two. */
  lemma CorrectOptionStored(c: Item)
    requires ValidCard(c).Some? && Get(c, "option_a") != []
    ensures var v := ValidCard(c).value; var x := Get(c, "correct_option");
      "correct_option" in v && v["correct_option"] == CorrectOptionAsWritten(x)
      && (x == [] || x[0] != '\U{DF}' ==> |v["correct_option"]| <= 1)
  {
    var x := Get(c, "correct_option");
    OptionsCut(c, ValidCard(c).value);
    if x == [] || x[0] != '\U{DF}' {
      CorrectOptionAsWrittenShort(x);
    }
  }

  // ---------------------------------------------------------------------
  // Validation of the list

  /** The result of validating each item. */
  function Checked(items: seq<Item>): (r: seq<Option<Card>>)
    ensures |r| == |items|
  {
    seq(|items|, i requires 0 <= i < |items| => ValidCard(items[i]))
  }

  /** The kept cards of `items`, in order. */
  function ValidCards(items: seq<Item>): seq<Card> {
    Somes(Checked(items))
  }

  /** The number of items that are kept. */
  function KeptCount(items: seq<Item>): nat {
    SomeCount(Checked(items))
  }

  /** The validation loop over `flashcards[:10]`. */
  method ValidateItems(items: seq<Item>) returns (valid: seq<Card>)
    ensures valid == ValidCards(Prefix(items, 10))
  {
    var first := Prefix(items, 10);
    ghost var checked := Checked(first);
    valid := [];
    var i := 0;
    while i < |first|
      invariant 0 <= i <= |first|
      invariant valid == Somes(checked[..i])
    {
      var c := first[i];
      var q := FirstTruthy(c, "question", "Question");
      var a := FirstTruthy(c, "answer", "Answer");
      SomesStep(checked, i);
      if q != [] && a != [] {
        var card := map["question" := Take(q, 255), "answer" := Take(a, 1000)];
        if Get(c, "option_a") != [] {
          card := card["option_a" := Take(Get(c, "option_a"), 255)];
          card := card["option_b" := Take(Get(c, "option_b"), 255)];
          card := card["option_c" := Take(Get(c, "option_c"), 255)];
          card := card["option_d" := Take(Get(c, "option_d"), 255)];
          card := card["correct_option" := CorrectOptionAsWritten(Get(c, "correct_option"))];
        }
        assert checked[i] == Some(card);
        valid := valid + [card];
      } else {
        assert checked[i] == None;
      }
      i := i + 1;
    }
    assert checked[..|first|] == checked;
  }

  /** Every kept card has the validated shape, and one card is kept per item
      that has a question and an answer. */
  lemma ValidCardsOk(items: seq<Item>)
    ensures forall v :: v in ValidCards(items) ==> ValidCardOk(v)
    ensures |ValidCards(items)| == KeptCount(items)
  {
    var checked := Checked(items);
    forall i | 0 <= i < |checked| && checked[i].Some? ensures ValidCardOk(checked[i].value) {
      ValidCardSpec(items[i]);
    }
    SomesAll(checked, ValidCardOk);
    SomesCount(checked);
  }

  /** The card of item `j` sits at the position given by the number of kept
      items before it: the kept cards keep the items' order. */
  lemma ValidCardsOrder(items: seq<Item>, j: nat)
    requires j < |items| && ValidCard(items[j]).Some?
    ensures KeptCount(items[..j]) < |ValidCards(items)|
    ensures ValidCards(items)[KeptCount(items[..j])] == ValidCard(items[j]).value
  {
    var checked := Checked(items);
    assert Checked(items[..j]) == checked[..j];
    SomesOrder(checked, j);
  }

  /** Items after the tenth are never looked at. */
  lemma ValidateIgnoresRest(items: seq<Item>, more: seq<Item>)
    requires |items| >= 10
    ensures ValidCards(Prefix(items + more, 10)) == ValidCards(Prefix(items, 10))
  {
    assert Prefix(items + more, 10) == Prefix(items, 10);
  }

  // ---------------------------------------------------------------------
  // Routing

  /** The validated cards of the model's reply, or `None` when the code
      falls back to the heuristic: no reply, an empty content string, no
      array in it, a parse that raises or is not a list, or no item kept. */
  function AiCards(reply: Reply, jsonLoads: string -> Parsed): Option<seq<Card>> {
    match reply
    case Answered(content) => ContentCards(content, jsonLoads)
    case Unavailable => None
    case Raised => None
  }

  /** The validated cards of a content string. */
  function ContentCards(content: string, jsonLoads: string -> Parsed): Option<seq<Card>> {
    if content == [] then None
    else
      var json := ExtractLastJsonArray(content);
      if json.None? || json.value == [] then None
      else ParsedCards(jsonLoads(json.value))
  }

  /** The validated cards of a parse, when it is a list that keeps an item. */
  function ParsedCards(parsed: Parsed): Option<seq<Card>> {
    match parsed
    case Items(xs) =>
      var valid := ValidCards(Prefix(xs, 10));
      if valid == [] then None else Some(valid)
    case Malformed => None
    case NotAList => None
  }

  /** What `generate_flashcards_with_ai(text)` returns: at most ten cards,
      each with a question of 1 to 255 and an answer of 1 to 1000
      characters. */
  function Generated(text: string, reply: Reply, jsonLoads: string -> Parsed): (r: seq<Card>)
    ensures |r| <= 10
    ensures forall c :: c in r ==> ValidCardOk(c)
  {
    var cleaned := CleanText(text);
    if cleaned == [] then []
    else
      match AiCards(reply, jsonLoads)
      case Some(valid) => AiCardsBounds(reply, jsonLoads); valid
      case None => FallbackBounds(cleaned); FallbackCards(cleaned, 3)
  }

  method GenerateFlashcards(text: string, reply: Reply, jsonLoads: string -> Parsed)
    returns (cards: seq<Card>)
    ensures cards == Generated(text, reply, jsonLoads)
  {
    var cleaned := CleanText(text);
    if cleaned == [] {
      return [];
    }
    var valid: seq<Card> := [];
    if reply.Answered? {
      valid := ReplyFlashcards(reply.content, jsonLoads);
    }
    if valid != [] {
      assert AiCards(reply, jsonLoads) == Some(valid);
      cards := valid;
    } else {
      assert AiCards(reply, jsonLoads) == None;
      cards := FallbackFlashcards(cleaned, 3);
    }
  }

  /** The steps from the reply's content to the validated cards; `[]`
      wherever the code gives up and falls back to the heuristic. */
  method ReplyFlashcards(content: string, jsonLoads: string -> Parsed) returns (valid: seq<Card>)
    ensures ContentCards(content, jsonLoads) == (if valid == [] then None else Some(valid))
  {
    if content == [] {
      return [];
    }
    var json := ExtractLastJsonArray(content);
    if json.None? || json.value == [] {
      return [];
    }
    var parsed := jsonLoads(json.value);
    if !parsed.Items? {
      return [];
    }
    valid := ValidateItems(parsed.items);
  }

  // ---------------------------------------------------------------------
  // Properties of the whole

  /** Text with no non-whitespace character gives no card. */
  lemma BlankTextNoCards(text: string, reply: Reply, jsonLoads: string -> Parsed)
    requires NonSpace(text) == []
    ensures Generated(text, reply, jsonLoads) == []
  {
    CleanTextEmptyIff(text);
  }

  /** The validated cards are used exactly when the reply holds an array
      that parses as a list whose first ten items keep at least one item. */
  lemma AiCardsIff(reply: Reply, jsonLoads: string -> Parsed)
    ensures AiCards(reply, jsonLoads).Some? <==>
      reply.Answered? && ExtractLastJsonArray(reply.content).Some?
      && jsonLoads(ExtractLastJsonArray(reply.content).value).Items?
      && KeptCount(Prefix(jsonLoads(ExtractLastJsonArray(reply.content).value).items, 10)) > 0
  {
    if reply.Answered? && ExtractLastJsonArray(reply.content).Some? {
      var json := ExtractLastJsonArray(reply.content).value;
      ExtractedArrayShape(reply.content);
      if jsonLoads(json).Items? {
        ValidCardsOk(Prefix(jsonLoads(json).items, 10));
      }
    }
  }

  /** A card of the heuristic path also has the shape of a validated card. */
  lemma FallbackCardIsValid(c: Card)
    requires FallbackCardOk(c)
    ensures ValidCardOk(c)
  {
  }

  lemma AiCardsBounds(reply: Reply, jsonLoads: string -> Parsed)
    requires AiCards(reply, jsonLoads).Some?
    ensures var valid := AiCards(reply, jsonLoads).value;
      |valid| <= 10 && forall c :: c in valid ==> ValidCardOk(c)
  {
    var xs := jsonLoads(ExtractLastJsonArray(reply.content).value).items;
    ValidCardsOk(Prefix(xs, 10));
  }

  lemma FallbackBounds(cleaned: string)
    ensures var r := FallbackCards(cleaned, 3);
      |r| <= 3 && forall c :: c in r ==> ValidCardOk(c)
  {
    forall c | c in FallbackCards(cleaned, 3) ensures ValidCardOk(c) {
      FallbackCardIsValid(c);
    }
  }
}
