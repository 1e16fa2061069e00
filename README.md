# FlashAI flashcard helpers, modelled in Dafny

FlashAI turns the text of an uploaded document into study flashcards. This
project models the string-processing core of `FlashAI/utils.py`:

- `clean_text` collapses every whitespace run to one space and strips the
  ends (module `Clean`).
- `extract_last_json_array` finds the non-greedy `[ … ]` matches of the
  model's reply and returns the last one (module `JsonArray`).
- `_fallback_flashcards` is the heuristic card maker. It splits the text
  into sentences (`Tokens`). Each sentence goes through `derive_qa`
  (`Derive`). That function tries its regular-expression rules in order
  (`Patterns`) and tidies the matched subject with `normalize_subject`
  (`Subject`). The loop keeps at most `limit` plain question/answer cards
  (`Fallback`).
- `generate_flashcards_with_ai` returns `[]` at once for blank text. It
  falls back to the heuristic on every failure of the model path. It
  validates the parsed items: the first ten at most, question and answer
  required, fields cut to 255 / 1000 / 255 characters, and option fields
  copied only when `option_a` is non-empty (`Generate`).

`PyStr` holds the Python runtime pieces the code relies on:

- whitespace, using the `str.isspace()` set for `\s` and for `strip()`;
- ASCII case folding for `re.I`;
- `str.upper()`;
- slicing;
- small scanners.

Each regular expression is written as the search Python's backtracking
matcher performs:

- optional groups and alternatives are tried in order;
- greedy repeats are tried longest first and lazy ones shortest first;
- the first success wins.

The lemmas then state each match in terms of its shape.

The two loops of the source are methods with loop invariants. They are
`_fallback_flashcards`' sentence loop, which breaks once `limit` cards are
held, and the validation loop over `flashcards[:10]`, which builds each
card key by key. The routing of `generate_flashcards_with_ai` is a method
too (`GenerateFlashcards`, with the steps from the reply's content to the
validated cards in `ReplyFlashcards`). Each method is proved equal to a
specification function, and the properties are proved about those
functions. The model call is not modelled. `GenerateFlashcards` takes the
reply as a `Reply` value (no client, an exception, or a content string) and
`json.loads` as a function parameter returning a `Parsed` value.

What `utils.py` does on each path is all the model has. The heuristic path
emits only `question` and `answer`: multiple-choice fields come only from
the model's reply, and nothing synthesises distractors. Neither path tops up
a short result: the heuristic can return fewer cards than `limit`, even none
for a non-empty text (`Fallback.ShortTextNoCards`), and that list is
returned as it is. The model's JSON is used as found: no code fence is
removed and no repair is tried, and a parse that fails falls back to the
heuristic.

## Model

| member | source | states |
|---|---|---|
| Clean.CollapseSpacesShape | FlashAI/utils.py:29 | `re.sub(r'\s+', ' ', …)`: the only whitespace left is single plain spaces, every non-whitespace character is kept in order, the result starts with whitespace iff the input does, and it is no longer than the input |
| Clean.CollapseWords | FlashAI/utils.py:29 | the substitution gives the whitespace-separated words joined by single spaces, with one more space at each end where the input has whitespace there around its words |
| Clean.CleanText | FlashAI/utils.py:28-30 | `clean_text(text)` is `' '.join(text.split())`: the words of the text joined by single spaces |
| Clean.CleanTextShape | FlashAI/utils.py:28-30 | the output has no leading or trailing whitespace, no two adjacent whitespace characters, only plain spaces, and the input's non-whitespace characters in order |
| Clean.CleanTextIdempotent | FlashAI/utils.py:28-30 | cleaning twice is cleaning once |
| Clean.CleanTextEmptyIff | FlashAI/utils.py:28-30 | the cleaned text is empty iff the input has no non-whitespace character |
| JsonArray.FindAll | FlashAI/utils.py:55 | every element of `re.findall` is a match that starts with `[` and ends at the first `]` after it; the matches come left to right and do not overlap |
| JsonArray.FindAllLeftmost | FlashAI/utils.py:55 | `findall` skips no `[` before the first match or between consecutive matches |
| JsonArray.FindAllLast | FlashAI/utils.py:55 | after the last match no `[` is followed by a `]` |
| JsonArray.ExtractLastJsonArray | FlashAI/utils.py:54-56 | `None` iff no `[` is followed later by `]`; otherwise the text of the last element of `findall`, a match with no further match after it |
| JsonArray.ExtractedArrayShape | FlashAI/utils.py:55-56 | the returned text starts with `[`, ends with `]`, holds no other `]` and has at least two characters |
| JsonArray.ExtractIsLastMatch | FlashAI/utils.py:56 | whenever `findall` finds something, the result is its last match |
| PyStr.StripBySpec | FlashAI/utils.py:68 | `s.strip(chars)` keeps one contiguous piece of `s` and drops only characters of the set, and only around the piece |
| PyStr.StripByEnds | FlashAI/utils.py:68 | neither end of the stripped piece is in the set |
| Subject.TrimSubject | FlashAI/utils.py:68 | the subject is the trimmed piece with only whitespace and ` .,:;\t\n\r` before and after it, and neither end of the piece is one of ` .,:;\t\n\r` |
| Subject.DropContextClause | FlashAI/utils.py:70 | the result is an end of the subject; when something is cut, the result is empty or starts with a non-space character |
| Subject.ContextClauseSpec | FlashAI/utils.py:70 | a leading `In/On/At/During/Within/From` (any case), whitespace, comma-free text, a comma and the whole following whitespace run are removed exactly when that shape starts the subject; otherwise nothing changes |
| Subject.DropArticle | FlashAI/utils.py:71 | the result is an end of the subject; when something is cut, the result is empty or starts with a non-space character |
| Subject.ArticleSpec | FlashAI/utils.py:71 | one leading `a`, `an` or `the` (any case) with its whole whitespace run is removed exactly when present; `an` is tried before `a` |
| Subject.NormalizeSubject | FlashAI/utils.py:67-75 | a subject of more than 60 characters after the removals is left as is; a shorter one has only its first character replaced by its `str.upper()`, the rest unchanged; the result is empty iff the subject after the removals is |
| Subject.NormalizeCapitalizesAscii | FlashAI/utils.py:73-74 | a short subject starting with an ASCII lower-case letter gets that letter upper-cased and nothing else changed |
| Subject.NormalizedEnd | FlashAI/utils.py:67-75 | a normalised subject never ends in a line break |
| Patterns.TailFrom | FlashAI/utils.py:82 | `\s+(.+)$` matches from a position exactly when a whitespace run is followed by a non-space rest with no line break, and the rest starts where the greedy run ends |
| Patterns.ColonMatch | FlashAI/utils.py:82 | a match has a term of 2 to 80 characters without `:` or `-`, and a non-empty rest that starts with a non-space character and holds no line break |
| Patterns.ColonMatchSpec | FlashAI/utils.py:82 | the colon/dash rule matches iff the shape "2 to 80 characters without `:`/`-`, optional whitespace, `:` or `-`, whitespace, a rest without line break" exists; group 1 is then the longest such term |
| Patterns.SearchStartsShape | FlashAI/utils.py:93-109 | the subject-verb search returns the first candidate start with any match, from it the shortest (lazy) subject, and after it the first verb alternative that fits |
| Patterns.SearchStartsNone | FlashAI/utils.py:93-109 | the search fails only when no candidate start has any match |
| Patterns.CopulaMatch | FlashAI/utils.py:93-100 | a match has a subject of 2 to 80 characters without `.`, `!` or `?`, the verb asked for, and a non-empty rest that starts with a non-space character and holds no line break |
| Patterns.CopulaMatchSpec | FlashAI/utils.py:93-100 | the `is` / `are` rule matches iff some start (after an optional `In …,` clause and an optional article) has a 2-to-80 character subject without `.!?`, whitespace, the verb, whitespace and a rest |
| Patterns.DefinitionMatch | FlashAI/utils.py:109-111 | a match has a subject as above, one of `means`, `refers to`, `stands for`, `is defined as` as its lower-cased verb, and a rest as above |
| Patterns.DefinitionMatchSpec | FlashAI/utils.py:109 | the defining rule matches iff some start after an optional article has a subject followed by `means`, `refers to`, `stands for` or `is defined as` and a rest |
| Patterns.IsDefinedAsShadowed | FlashAI/utils.py:93-113 | on text without a line break, wherever the `is defined as` alternative would match, the earlier `is` rule already matches |
| Tokens.SplitSentences | FlashAI/utils.py:130 | `re.split(r'[.!?]\s+', …)` gives at least one piece; no piece holds an end mark followed by whitespace; every piece after the first is empty or starts with a non-space character |
| Tokens.SplitSentencesSpec | FlashAI/utils.py:130 | every separator is an end mark with its whole whitespace run, and putting the separators back between the pieces gives the text |
| Tokens.SplitPieceLength | FlashAI/utils.py:130 | no sentence piece is longer than the text |
| Tokens.WordCuts | FlashAI/utils.py:122 | every match `re.findall` reports is a word (letters and digits with at most one inner apostrophe) that is not followed by a letter or digit, nor by an apostrophe and a letter or digit when it has no apostrophe; the matches come left to right, apart |
| Tokens.WordCutsCover | FlashAI/utils.py:122 | every ASCII letter or digit lies inside a reported match |
| Tokens.Words | FlashAI/utils.py:122 | the words are the texts of the matches, in order, each letters and digits with at most one inner apostrophe |
| Tokens.WordsEmptyIff | FlashAI/utils.py:122-123 | no word is found iff the sentence has no ASCII letter or digit |
| Derive.ColonVerbSpec | FlashAI/utils.py:87 | for a subject without a final line break the verb is `are` iff the subject ends in `s`/`S` or contains the word `and`, else `is` |
| Derive.SelectRule | FlashAI/utils.py:82-128 | the chosen rule can be built: a colon rule has a non-empty subject, the verb `is` or `are` and a rest starting with a non-space character; every matched rest is non-empty without a line break; a copula rule's verb is `is` or `are` and a defining rule's one of the four verbs |
| Derive.LaterRule | FlashAI/utils.py:92-128 | the rules after the colon rule never give a colon rule; their matched rests and verbs are as for `SelectRule` |
| Derive.RulePrecedence | FlashAI/utils.py:82-128 | each rule is used iff it applies and no earlier rule does: colon (only with a non-empty normalised term), `is`, `are`, defining verbs, topic |
| Derive.Topic | FlashAI/utils.py:121-124 | a sentence with no word gets the topic `This topic` |
| Derive.Card | FlashAI/utils.py:88-127 | for a non-empty sentence and a rule that can be built, every template gives a question starting with `What ` and a non-empty answer |
| Derive.DeriveQa | FlashAI/utils.py:78-80 | `None` iff the stripped sentence is shorter than 10 characters |
| Derive.DeriveQaBounds | FlashAI/utils.py:77-128 | every pair has a question of 5 to 120 characters starting with `What ` and an answer of 1 to 300 characters |
| Derive.NoIsDefinedAsRule | FlashAI/utils.py:93-119 | a sentence without a line break never yields the `is defined as` card |
| Derive.TopicAnswer | FlashAI/utils.py:127-128 | the topic rule's answer is the stripped sentence cut to 300 characters |
| Derive.NoWordsQuestion | FlashAI/utils.py:122-125 | with no word the topic is `This topic` and the verb `is` |
| Fallback.PlainCard | FlashAI/utils.py:140 | the card has exactly the keys `question` and `answer`, holding the pair |
| Fallback.FallbackCards | FlashAI/utils.py:130-141 | `_fallback_flashcards` returns `min(limit, n)` cards (0 for `limit <= 0`), `n` being the number of sentences that give a card, each with exactly the two keys, a question of 5 to 120 characters starting `What ` and an answer of 1 to 300 |
| Fallback.FallbackFlashcards | FlashAI/utils.py:130-141 | the loop returns the first `limit` cards (none for `limit <= 0`) of the cards of all sentences, in sentence order |
| Fallback.SentenceCardSpec | FlashAI/utils.py:135-140 | a sentence adds a card iff it strips to at least 10 characters (the `if q and a` test never drops a pair); the card holds exactly the pair of `derive_qa` under the keys `question` and `answer`, with a question of 5 to 120 characters starting `What ` and an answer of 1 to 300 |
| Fallback.FallbackOrder | FlashAI/utils.py:132-140 | the card of accepted sentence `j` sits at the index that counts the accepted sentences before it |
| Fallback.ShortTextNoCards | FlashAI/utils.py:130-141 | a text of fewer than 10 characters yields no card |
| Generate.FirstTruthy | FlashAI/utils.py:215-216 | `c.get(k1) or c.get(k2)` is non-empty iff either value is, and is the first one when that is non-empty |
| Generate.CorrectOptionAsWritten | FlashAI/utils.py:225 | the stored correct option as the code computes it under the modelled `upper()` (ASCII letters and `ß`): empty iff the input is, at most two characters |
| Generate.CorrectOptionTwoLetters | FlashAI/utils.py:225 | an input `ß` is stored as `SS`, two characters |
| Generate.CorrectOptionAsWrittenShort | FlashAI/utils.py:225 | under the modelled `upper()`, every input not starting with `ß` gives a stored value of at most one character, and an ASCII letter is upper-cased |
| Generate.CorrectOption | FlashAI/utils.py:225 | the corrected field: at most one character, empty iff the input is, an ASCII letter upper-cased |
| Generate.CorrectOptionAgrees | FlashAI/utils.py:225 | under the modelled `upper()`, the corrected field equals the one the code computes for every input not starting with `ß` |
| Generate.ValidCard | FlashAI/utils.py:215-229 | an item is kept iff it has a non-empty question and a non-empty answer under either spelling; a kept card has a question of 1 to 255 and an answer of 1 to 1000 characters, and either only those keys or also the four options of at most 255 characters and a correct option of at most two |
| Generate.ValidCardSpec | FlashAI/utils.py:215-229 | a kept card's question is exactly `q[:255]` and its answer exactly `a[:1000]` of the first non-empty spelling; option keys are present iff `option_a` is non-empty |
| Generate.CutToIsTake | FlashAI/utils.py:218-224 | a field that meets `CutTo` for `n` is exactly the value `[:n]` gives, and no other string does |
| Generate.OptionsCut | FlashAI/utils.py:220-225 | with `option_a` non-empty each option is exactly `str(c.get(k, ''))[:255]` of the item, and the correct option is the value the code computes |
| Generate.CorrectOptionStored | FlashAI/utils.py:220-225 | the stored correct option is the value the code computes; under the modelled `upper()` it has at most one character unless the input starts with `ß` |
| Generate.ValidateItems | FlashAI/utils.py:213-229 | the loop keeps the valid cards of the first ten items, in order |
| Generate.ValidCardsOk | FlashAI/utils.py:214-229 | every kept card has the validated shape (a correct option of at most two characters), and one is kept per item with question and answer |
| Generate.ValidCardsOrder | FlashAI/utils.py:214-229 | the card of item `j` sits at the index that counts the kept items before it |
| Generate.ValidateIgnoresRest | FlashAI/utils.py:214 | items after the tenth do not change the result |
| Generate.ReplyFlashcards | FlashAI/utils.py:189-230 | from the reply's content: no cards for empty content, no array, a parse that is not a list, or no kept item; otherwise the validated cards of the first ten items |
| Generate.Generated | FlashAI/utils.py:148-233 | at most 10 cards are returned, each of the validated shape, whichever path produced them |
| Generate.GenerateFlashcards | FlashAI/utils.py:148-233 | blank text gives `[]`; every failure (no client, exception, empty content, no array, parse error, not a list, nothing kept) gives the heuristic's cards with `limit` 3; otherwise the validated cards |
| Generate.BlankTextNoCards | FlashAI/utils.py:148-150 | text with no non-whitespace character gives `[]` |
| Generate.AiCardsIff | FlashAI/utils.py:189-230 | the validated cards are used iff the reply holds an array that parses as a list of which the first ten items keep at least one |

## Left out

- PDF extraction (`extract_text_from_pdf`, `FlashAI/utils.py:33-51`) parses binary PDFs through a foreign library.
- The model call (`FlashAI/utils.py:152-173`) is network I/O: the reply is a parameter of `GenerateFlashcards`. The prompt text, including its `cleaned_text[:1000]` excerpt, has no effect on the model.
- The `hasattr`/`isinstance` probing of the reply (`FlashAI/utils.py:182-187`): the reply arrives already reduced to a content string, with `None` as `""`.
- `json.loads` (`FlashAI/utils.py:202`) is a parameter. Items are string-to-string maps. Non-dict items (an `AttributeError`, hence the fallback) are not modelled. Neither are non-string values, their truthiness, or `str()` of them.
- `print` logging, the `config` lookup and the blanket `except` (`FlashAI/utils.py:16-25, 175-200, 231-233`) are plumbing: an exception is the `Raised` reply or the `Malformed` parse.
- The Django views, models, forms, URLs and migrations are request handling and storage. They are not part of this model.
- PyStr.Lower: `re.I` folding is ASCII only. Python also lets the dotless `ı` (U+0131) and the dotted `İ` (U+0130) match `i`, which affects `In`, `Within`, `is` and `is defined as`, and the long `ſ` (U+017F) match `s`.
- PyStr.UpperChar: `str.upper()` is modelled for ASCII letters and `ß` only. Every other character is left unchanged.
- Generate.CorrectOptionAsWritten: its bound of two characters holds for the modelled `upper()` only. Python's `upper()` also lengthens characters such as `ﬁ` (to `FI`), `ŉ` (to `ʼN`), and `ﬃ` and `ΐ` (to three code points each), so `str(x)[:1].upper()` can hold three characters.
- Generate.CorrectOptionAgrees: the two fields agree except on `ß` only under the modelled `upper()`. In Python they also differ on inputs starting with `ﬁ`, `ŉ`, `ﬃ`, `ΐ` and the other characters that `upper()` lengthens.
- Subject.NormalizeSubject: `|r| <= |subj| + 1` holds for the modelled `upper()`. Python's `upper()` can turn the first character into three, so the bound there is `|subj| + 2`.
- Derive.Boundary: `\b` uses ASCII word characters, while Python's `str` patterns use Unicode ones.
- Patterns.TailFrom: `\s+(.+)$` is modelled for the stripped text that `derive_qa` passes. On other text the model parts from Python. On all-whitespace text, `\s+` gives one space back to `.+`, but the model returns `None`. Before a final `\n`, `$` also matches, but the model rejects the line break.
- Patterns.ColonMatch, Patterns.CopulaMatch, Patterns.DefinitionMatch: these matchers take stripped text, which is all `derive_qa` passes them. The leading `\s*` is therefore left out.
- Generate.ContentCards: the `if not json_string` test is kept but can never be taken, because a located array has at least two characters.

## Findings

| source | as written | input that shows it | evidently intended | confidence | as-written member | corrected member |
|---|---|---|---|---|---|---|
| FlashAI/utils.py:225 | `str(c.get('correct_option', ''))[:1].upper()` cuts to one character before upper-casing, and `str.upper()` can lengthen it | for example an item with `correct_option` `"ß"` gets `"SS"`, two characters (other characters lengthen too: `ﬁ` gives `FI`, `ﬃ` gives `FFI`), for a field declared with `max_length=1` (FlashAI/migrations/0005_flashcard_mcq_fields.py:34) | a field of at most one upper-cased character | medium, not executed | Generate.CorrectOptionAsWritten (shown by Generate.CorrectOptionTwoLetters) | Generate.CorrectOption |

The validation (`Generate.ValidCard`) stores the value as the code computes
it, with `upper()` as the model has it (ASCII letters and `ß`).
`Generate.CorrectOption` is the evidently intended field.
`Generate.CorrectOptionAgrees` shows that under the modelled `upper()` the two
differ only on inputs starting with `ß`. Python's `upper()` lengthens more
characters than that, so in Python they also differ on inputs starting with
`ﬁ`, `ﬃ`, `ŉ`, `ΐ` and other such characters.
