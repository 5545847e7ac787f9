# AIBE preparation scripts: a Dafny model

This project models the data-handling core of the AIBE (All India Bar
Examination) preparation scripts:

- the previous-year question bank of `aibe_pyq_manager.py`: exact-match
  filters, lookup by id, random picks, per-field counts, keyword search, the
  sorted list of sections, quota-driven custom tests, the mock-test export
  record and the assembly of mock test 2;
- the card pipeline of `json_scraper_generator.py`: whitespace cleanup of
  scraped text, the 8000-character content cut, the parsing of a model reply
  into flashcards (fence stripping, the greedy `[...]` span, the `q`/`a`
  filter), and the `JSONManager` topic store with its de-duplicating
  `add_cards_to_topic` and its `ensure_minimum_cards`;
- `flashcard_generator.py` (and its byte-identical copy
  `bkup/flashcard_generator.py`): the unfiltered reply parser, the
  "existing questions" part of the prompt, and `expand_json_flashcards`,
  which tops up every topic of a flashcards file to a target count. The
  line numbers cited for `flashcard_generator.py` hold for the copy as well.

JSON data is the datatype `Json.Value`. The JSON decoder and the language
model are function parameters. Python exceptions that escape are explicit
outcomes (`Err`, `Crashed`, `Raises`, `None`). The topic store is a class
whose `files` map stands for the data directory. The expander is a loop that
updates the `flashcards` map in place. Random choices come from an explicit
stream of numbers (`Random.Stream`).

Modules: `Wrappers`, `Collections` (filter, map, `Counter`), `Text` (the
`str` methods the scripts use), `Json`, `Random`, `QuestionBank`,
`AibeMockTest`, `LlmResponse` (the reply clean-up both parsers share),
`ScraperGenerator`, `TopicStore` and `FlashcardGenerator`.

## Model

| member | source | states |
|---|---|---|
| QuestionBank.FilterByYear | aibe_pyq_manager.py:26-31 | the result is an order-preserving sub-list of the bank holding every question of that year as often as the bank does, and no other question |
| QuestionBank.FilterBySubject | aibe_pyq_manager.py:33-38 | the same for the subject; every result has that subject |
| QuestionBank.FilterByDifficulty | aibe_pyq_manager.py:40-45 | the same for the difficulty; a question without a `difficulty` key never matches |
| QuestionBank.GetById | aibe_pyq_manager.py:47-52 | `None` exactly when no question has the id; otherwise the first question with that id |
| QuestionBank.GetRandomQuestions | aibe_pyq_manager.py:54-56 | with the default count 10; fails exactly for a negative count; otherwise `min(count, len)` questions from distinct positions of the bank |
| QuestionBank.SubjectStatsSpec | aibe_pyq_manager.py:58-61 | keys are exactly the subjects present, each once; each count is the size of `filter_by_subject`; counts are positive and add up to the bank size |
| QuestionBank.YearStatsSpec | aibe_pyq_manager.py:63-66 | the same for years and `filter_by_year` |
| QuestionBank.DifficultyStatsSpec | aibe_pyq_manager.py:68-71 | counts are those of `filter_by_difficulty`, plus every question without a difficulty under `'Medium'`; positive, summing to the bank size |
| QuestionBank.SearchByKeyword | aibe_pyq_manager.py:73-81 | the loop collects exactly the filter of the case-insensitive match on text or explanation |
| QuestionBank.SearchSpec | aibe_pyq_manager.py:73-81 | a question is found, as often as it occurs, exactly when the lower-cased keyword occurs in its lower-cased text or explanation |
| QuestionBank.SearchEmptyKeyword | aibe_pyq_manager.py:73-81 | the empty keyword finds every question |
| QuestionBank.GetQuestionsWithCaseLaw | aibe_pyq_manager.py:83-85 | an order-preserving sub-list holding exactly the questions with a `case_law` key |
| QuestionBank.QuotaDrawsSize | aibe_pyq_manager.py:87-99 | the draws fail exactly when some count is negative; otherwise they hold `sum(min(count, len(pool)))` questions |
| QuestionBank.QuotaDrawsPerSubject | aibe_pyq_manager.py:87-99 | with distinct subjects, each listed subject gets `min(count, len(pool))` questions from distinct positions of its pool, and unlisted subjects get none |
| QuestionBank.QuotaDrawsFromBank | aibe_pyq_manager.py:87-99 | every drawn question is a question of the bank |
| QuestionBank.CreateCustomTest | aibe_pyq_manager.py:87-101 | the loop's result fails exactly when the draws do; otherwise it is the shuffle of the draws, a permutation of them |
| QuestionBank.GetSectionsList | aibe_pyq_manager.py:103-109 | strictly ascending, and holds exactly the sections some question names |
| QuestionBank.ExportToMockTestFormat | aibe_pyq_manager.py:133-151 | the record carries the questions and their count, the id and name, 210 minutes and 40 passing marks, and is written to `mock_test_<id>.json` |
| QuestionBank.TestFilenameInjective | aibe_pyq_manager.py:146 | different test ids never share a file name |
| AibeMockTest.MockTest2Total | aibe_pyq_manager.py:293-312 | the fixed distribution asks for 71 questions, so 29 remain to be filled |
| AibeMockTest.MockTest2Filename | aibe_pyq_manager.py:323-327 | test 2 is written to `mock_test_2.json` |
| AibeMockTest.TakePrefix | aibe_pyq_manager.py:324 | `test[:n]` is exactly the first `min(n, len)` questions, in order |
| AibeMockTest.Fill | aibe_pyq_manager.py:310-320 | the fill adds at most `len(qs)` questions, and none exactly when nothing remains or the bank is empty |
| AibeMockTest.Collected | aibe_pyq_manager.py:310-320 | collecting fails exactly when a quota draw fails; otherwise it holds every quota draw as often as it was drawn, plus the fill, and only bank questions |
| AibeMockTest.CollectedSpec | aibe_pyq_manager.py:310-320 | without a negative count the collection succeeds, with the quota total plus the fill questions |
| AibeMockTest.QuotaThenFill | aibe_pyq_manager.py:310-320 | the loop, `create_custom_test` then `extend` with `get_random_questions(remaining)`, returns exactly the collection and the stream after it |
| AibeMockTest.ExportFirstHundred | aibe_pyq_manager.py:323-327 | the exported test is exactly the first `min(100, len)` collected questions, in order, under the given id and name |
| AibeMockTest.CreateAibeMockTest2 | aibe_pyq_manager.py:288-327 | test 2 is the export of the first 100 of the collection for the fixed distribution; it is written to `mock_test_2.json` and holds `min(100, quota total + min(29, len))` questions, all from the bank |
| Random.Sample | aibe_pyq_manager.py:56 | `random.sample` gives `min(k, len)` elements from distinct positions, all of them when `k` covers the pool |
| Random.Shuffle | aibe_pyq_manager.py:100 | `random.shuffle` gives a permutation |
| Collections.Tally | aibe_pyq_manager.py:61 | `dict(Counter(keys))` lists each distinct key once with its number of occurrences; counts are positive and add up to `len(keys)` |
| Text.SortedSeq | aibe_pyq_manager.py:109 | `sorted(list(set))` is strictly ascending and has exactly the set's elements |
| Text.Strip | json_scraper_generator.py:147-148 | `str.strip` removes only surrounding whitespace and leaves no border whitespace |
| Text.SplitLines | json_scraper_generator.py:147 | no line of `splitlines` holds a line break; the empty text has no lines; the first line runs up to the first line boundary, or is the whole text when there is none |
| Text.SplitLinesRest | json_scraper_generator.py:147 | after the first line and its boundary (`\r\n` counts as one), the lines are those of the rest of the text |
| Text.SplitOn | json_scraper_generator.py:148 | `split(sep)` gives at least one part, no part holds `sep`, joining the parts with `sep` gives back the text, and every cut is at the leftmost occurrence of `sep` in the text that remains |
| ScraperGenerator.ExtractTextLines | json_scraper_generator.py:145-149 | each output line is a non-empty chunk with no surrounding whitespace, no double space and no line break, and the lines are exactly the chunks |
| ScraperGenerator.ExtractTextNonSpace | json_scraper_generator.py:145-149 | the cleanup changes only whitespace: the non-whitespace characters are the input's, in order |
| ScraperGenerator.TruncateContent | json_scraper_generator.py:165-168 | text up to 8000 characters is unchanged; longer text keeps its first 8000 characters followed by `...` |
| ScraperGenerator.TruncateIdempotent | json_scraper_generator.py:165-168 | truncating twice gives the same text as truncating once |
| ScraperGenerator.GenerateFromContent | json_scraper_generator.py:162-198 | with the default count 15; the model is asked about the content cut to 8000 characters; a failing call gives no cards, otherwise the parse of the reply, whose cards all have `q` and `a` |
| ScraperGenerator.GenerateTopicCards | json_scraper_generator.py:200-225 | the same for the topic prompt with the title, subtitle and count |
| ScraperGenerator.ParseJsonBlock | json_scraper_generator.py:298-320 | for a reply that is one "```json" block whose body's span decodes to a list of containers, the cards are exactly that list's elements with `q` and `a`, in order |
| ScraperGenerator.TopicCardsFromJsonBlock | json_scraper_generator.py:200-225 | such an answer to the topic prompt gives exactly those cards |
| ScraperGenerator.ContentCardsFromJsonBlock | json_scraper_generator.py:162-198 | such an answer to the prompt with the cut content gives exactly those cards |
| LlmResponse.Before | json_scraper_generator.py:304-306 | `s.split(p)[0]` is a prefix without `p`, ending where `p` first occurs, or all of `s` |
| LlmResponse.FenceBodySpec | json_scraper_generator.py:304-306 | the fenced body is the text after the first opener, cut at the next opener and then at the first fence; it holds no fence |
| LlmResponse.FenceBodyToNextFence | json_scraper_generator.py:304 | with one opener, the body runs to the next fence or to the end |
| LlmResponse.PlainFenceBody | json_scraper_generator.py:306 | for a plain fence the body is the text between the first two fences |
| LlmResponse.JsonFenceIsFence | json_scraper_generator.py:303-305 | text holding the json fence holds a plain fence |
| LlmResponse.StripFences | json_scraper_generator.py:302-306 | text without a fence is unchanged; otherwise the result holds no fence |
| LlmResponse.StripFencesCases | json_scraper_generator.py:303-306 | the json block is preferred; otherwise the first plain block is used |
| LlmResponse.BracketSpan | json_scraper_generator.py:309-311 | the span runs from the first `[` to the last `]` when a `[` precedes a `]`; otherwise the text is unchanged |
| LlmResponse.BracketSpanIdempotent | json_scraper_generator.py:309-311 | taking the span twice gives the same text |
| LlmResponse.BracketSpanOf | json_scraper_generator.py:309-311 | with no `[` before and no `]` after `[mid]`, the span is exactly `[mid]` |
| LlmResponse.JsonBlockBody | json_scraper_generator.py:302-306 | for `pre` + "```json" + `body` + "```" + `post` with no other backtick, the fence handling keeps exactly `body` |
| LlmResponse.JsonBlockCandidate | json_scraper_generator.py:300-311 | the decoder is handed the bracket span of that block's body, after `strip` |
| ScraperGenerator.KeepCardsSpec | json_scraper_generator.py:317 | the comprehension raises exactly when some element is null, a boolean or a number (is not a container); otherwise it keeps, in order, exactly the elements with `q` and `a` |
| ScraperGenerator.ParseFlashcards | json_scraper_generator.py:298-320 | every returned card has `q` and `a` |
| ScraperGenerator.ParseFlashcardsSpec | json_scraper_generator.py:313-320 | a decode failure, a non-list or a non-container element gives `[]`; otherwise the cards with `q` and `a`, in order |
| ScraperGenerator.ParseFlashcardsSubseq | json_scraper_generator.py:313-317 | the cards are an order-preserving sub-list of the decoded list |
| ScraperGenerator.StringCardKept | json_scraper_generator.py:317 | the string `"qa"` passes the `q`/`a` test |
| TopicStore.QuestionsSpec | json_scraper_generator.py:354 | the set is built exactly when every old card has a hashable `q`, and holds exactly those questions |
| TopicStore.QuestionsAppend | json_scraper_generator.py:354 | the questions of two lists put together are the union of their questions |
| TopicStore.NovelSpec | json_scraper_generator.py:357 | the filter raises exactly when a new card lacks a hashable `q`; otherwise it keeps, in order and with repeats, the cards whose question is new |
| TopicStore.AddCardsSpec | json_scraper_generator.py:345-362 | a saved record keeps every other key, its cards are the old ones followed by those with a new question, and added plus filtered equals the batch size |
| TopicStore.AddCardsCrashes | json_scraper_generator.py:345-362 | raises exactly for a truthy record that is not a dict, a non-list `flashcards`, or an old or new card without a hashable `q` |
| TopicStore.AddTwiceAddsNothing | json_scraper_generator.py:353-360 | adding the same batch again adds nothing and leaves the record unchanged |
| TopicStore.RepeatsInBatchKept | json_scraper_generator.py:357 | the same new card twice in one batch is added twice |
| TopicStore.StringCardCrashes | json_scraper_generator.py:354-357 | a string card that passed the parser makes `add_cards_to_topic` raise |
| TopicStore.ShortfallRequested | json_scraper_generator.py:364-389 | a short topic needs exactly `min_count - len(flashcards)` cards; with a generator, exactly that many are requested under the topic's title and subtitle |
| TopicStore.NoAddWithoutNeedOrGenerator | json_scraper_generator.py:374-389 | a topic with enough cards, or no generator, adds nothing |
| TopicStore.JsonManager.constructor | json_scraper_generator.py:326-328 | the store starts with the given files |
| TopicStore.JsonManager.LoadTopic | json_scraper_generator.py:330-336 | a missing file reads as `{}`, which is falsy; otherwise its record |
| TopicStore.JsonManager.SaveTopic | json_scraper_generator.py:338-343 | only the named file is rewritten |
| TopicStore.JsonManager.AddCardsToTopic | json_scraper_generator.py:345-362 | the outcome is that of the record the file held; only an addition saves, and only to that file, and other outcomes leave the files unchanged |
| TopicStore.JsonManager.EnsureMinimumCards | json_scraper_generator.py:364-389 | with the defaults 15 and no generator; files change only when the topic is short, a generator is given and it returns cards; those cards then go through `add_cards_to_topic` on the same file |
| FlashcardGenerator.ParseJsonBlock | flashcard_generator.py:157-181 | for a reply that is one "```json" block, the list that the block body's bracket span decodes to is returned unchanged; anything else gives `[]` |
| FlashcardGenerator.FilteringVariantAgrees | flashcard_generator.py:173-181 | the filtering parser keeps the cards with `q` and `a` of this parser's list, or nothing when an element is not a container |
| FlashcardGenerator.ShownQuestions | flashcard_generator.py:38-40 | at most the first ten existing questions are listed, and none when there are none |
| FlashcardGenerator.ExistingQuestionsText | flashcard_generator.py:38-40 | no text when no question is listed; otherwise the text starts with the header |
| FlashcardGenerator.ExistingQuestionsLines | flashcard_generator.py:38-40 | after the header, the text is exactly one `- q` line for each of the first ten questions, in order |
| FlashcardGenerator.GenerateFlashcards | flashcard_generator.py:25-62 | with the defaults 15 and none; the request carries the count and exactly `existing[:10]`, or nothing for none; a failing model call fails; otherwise the parse of the reply |
| FlashcardGenerator.GenerateFromJsonBlock | flashcard_generator.py:25-62 | a model that answers with one "```json" block holding a list gives exactly that list back, unfiltered |
| FlashcardGenerator.CardQuestions | flashcard_generator.py:217 | the questions are collected exactly when every card has `q`, one per card and in order |
| FlashcardGenerator.FullTopicKept | flashcard_generator.py:209-235 | a topic with at least `target` cards keeps its entry, and nothing changes |
| FlashcardGenerator.ShortTopicExtended | flashcard_generator.py:213-228 | a short topic is asked for exactly `target - existing` cards; on success its entry becomes the old cards followed by every new card, with no de-duplication |
| FlashcardGenerator.NoSubtitleKept | flashcard_generator.py:219-231 | a missing `subtitle` is caught and the topic is left as it was |
| FlashcardGenerator.TopicCrashes | flashcard_generator.py:205-217 | a topic without `id` or `title`, or a short topic with a card lacking `q`, ends the run |
| FlashcardGenerator.ExpandTopicFrame | flashcard_generator.py:205-233 | one topic changes at most its own entry |
| FlashcardGenerator.ExpandAllFrame | flashcard_generator.py:205-233 | entries named by no topic pass through the loop unchanged, and no other entry appears |
| FlashcardGenerator.ExpandOutput | flashcard_generator.py:236-239 | the record written has exactly `topics`, as read, and `flashcards`, which keeps every entry no topic names |
| FlashcardGenerator.ExpandOne | flashcard_generator.py:205-233 | one pass of the loop body computes the per-topic step |
| FlashcardGenerator.ExpandJsonFlashcards | flashcard_generator.py:184-244 | with the default target 15; the loop's result is the expansion of the input record: a crash or the record written |

## Left out

- Network calls are not modelled: the model providers behind `_call_llm`, the `LegalContentScraper.scrape_*` methods and HTML parsing with BeautifulSoup. The model call is a function parameter that may fail; only the text cleanup after `get_text` is modelled.
- Decoding and encoding JSON and reading and writing files are not modelled. The decoder is a function parameter, and the data directory is a map from file name to record.
- The prompt wording is not modelled. Only the parts that vary (topic, count, listed questions) reach the model call.
- The uniform distribution of `random.sample` and `random.shuffle` is not modelled. The draws come from an explicit stream, and the model states lengths, membership and permutation.
- `random.shuffle` and `list.extend` work in place; the model computes new sequences instead.
- Console output, menus, `print_question`, the study-plan and study-guide printers, `main` and the command-line blocks are presentation only and are left out.
- Environment variables, `time.sleep` rate limiting and the `pip install` bootstrap are left out.
- `get_all_questions` and the manager's file loading are left out: the bank is the sequence given to each operation.
- `JSONManager.__init__` also creates the data directory; this model starts from a given map.
- QuestionBank.Question: every record is assumed to have the keys the code indexes, with the right types. Python raises `KeyError` for a record without `year`, `subject`, `id` or `question` (aibe_pyq_manager.py:31, 38, 50, 60, 65, 78). A null `explanation` raises `AttributeError` (line 79), which the model reads as `""`. A null `section` makes `sorted` raise `TypeError` (line 109). None of these failures is modelled.
- Text.Lower: the case map covers ASCII letters only, not all Unicode.
- JSON numbers are integers; floats, and Python's `1 == True`, are not modelled.
- Dict key order is not modelled except where it shows: the order of `Counter` keys, and of the subjects in a distribution.
- FlashcardGenerator.StrOf: `str()` of a list or dict topic id (its `repr`) is not modelled. Such an id ends the run in the model, while Python would use the repr as the key.
- FlashcardGenerator.ExpandJsonFlashcards: the generator is any function from the call's arguments to cards or an error. `GenerateFlashcards` is the configured one, built from a model call and the parser.
- ScraperGenerator.GenerateFromContent and ScraperGenerator.GenerateTopicCards: the prompt wording is left out; the prompt is a value carrying the topic, the cut content (or title and subtitle) and the count, and the model call is a parameter.
