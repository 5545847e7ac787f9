/**
 * flashcard_generator.py (and its copy bkup/flashcard_generator.py): the
 * unfiltered `_parse_flashcards`, the "existing questions" part of the
 * prompt of `generate_flashcards`, and `expand_json_flashcards`, which tops
 * up every topic of a flashcards file to a target count.
 *
 * The input file holds `{"topics": [{id, title, subtitle}, ...],
 * "flashcards": {"<id>": [{q, a}, ...], ...}}`.
 */
module FlashcardGenerator {
  import opened Wrappers
  import opened Collections
  import opened Text
  import opened Json
  import opened LlmResponse
  import Scraper = ScraperGenerator

  // ---------------------------------------------------------------------------
  // _parse_flashcards
  // ---------------------------------------------------------------------------

  /** `_parse_flashcards`: the decoded list of the fence and bracket candidate, unchanged; `[]` on any failure. */
  function ParseFlashcards(decode: Decoder, response: string): seq<Value> {
    match decode(Candidate(response))
    case Some(Array(items)) => items
    case _ => []
  }

  /**
   * For a reply whose stripped text is one "```json" block with no other
   * backtick, the parser decodes the bracket span of the block's body: a
   * decoded list comes back as it is, anything else gives `[]`.
   */
  lemma ParseJsonBlock(decode: Decoder, response: string, pre: string, body: string, post: string)
    requires Strip(response) == pre + JsonFence + body + Fence + post
    requires NoBacktick(pre) && NoBacktick(body) && NoBacktick(post)
    ensures forall items :: decode(BracketSpan(body)) == Some(Array(items)) ==> ParseFlashcards(decode, response) == items
    ensures !(decode(BracketSpan(body)).Some? && decode(BracketSpan(body)).value.Array?) ==> ParseFlashcards(decode, response) == []
  {
    JsonBlockCandidate(response, pre, body, post);
  }

  /**
   * The filtering variant of json_scraper_generator.py reads the same
   * candidate and keeps, of this variant's list, the cards with `q` and `a`,
   * or nothing when an element is not a container.
   */
  lemma FilteringVariantAgrees(decode: Decoder, response: string)
    ensures var cards := ParseFlashcards(decode, response);
            Scraper.ParseFlashcards(decode, response)
              == if forall i :: 0 <= i < |cards| ==> Scraper.Container(cards[i])
                 then Filter(Scraper.IsCard, cards) else []
  {
    Scraper.ParseFlashcardsSpec(decode, response);
    var cards := ParseFlashcards(decode, response);
    if cards == [] {
      assert Filter(Scraper.IsCard, cards) == [];
    }
  }

  // ---------------------------------------------------------------------------
  // generate_flashcards
  // ---------------------------------------------------------------------------

  /** `existing_questions[:10]` when `existing_questions` is truthy, otherwise nothing. */
  function ShownQuestions<T>(existing: Option<seq<T>>): (r: seq<T>)
    ensures |r| <= 10
    ensures existing.None? ==> r == []
    ensures existing.Some? ==> r <= existing.value && |r| == Min(10, |existing.value|)
  {
    if existing.None? || existing.value == [] then []
    else if |existing.value| <= 10 then existing.value
    else existing.value[..10]
  }

  const SuffixHeader: string := "\n\nExisting questions to avoid duplicating:\n"

  /** `f"- {q}"`. */
  function Bullet(q: string): string {
    "- " + q
  }

  /** `existing_q_text`: empty, or the header and one bullet per shown question. */
  function ExistingQuestionsText(existing: Option<seq<string>>): (r: string)
    ensures ShownQuestions(existing) == [] ==> r == ""
    ensures ShownQuestions(existing) != [] ==> |r| > |SuffixHeader| && r[..|SuffixHeader|] == SuffixHeader
  {
    var shown := ShownQuestions(existing);
    if shown == [] then "" else SuffixHeader + Join("\n", MapSeq(Bullet, shown))
  }

  /**
   * For questions on one line each, the text after the header is exactly one
   * line `- q` for each of the first ten questions, in order, and nothing else.
   */
  lemma ExistingQuestionsLines(qs: seq<string>)
    requires qs != []
    requires forall i :: 0 <= i < |qs| ==> NoLineBreak(qs[i])
    ensures var r := ExistingQuestionsText(Some(qs));
            |r| > |SuffixHeader|
            && SplitLines(r[|SuffixHeader|..]) == MapSeq(Bullet, qs[..Min(10, |qs|)])
            && |SplitLines(r[|SuffixHeader|..])| <= 10
  {
    var shown := ShownQuestions(Some(qs));
    assert shown == qs[..Min(10, |qs|)];
    var lines := MapSeq(Bullet, shown);
    forall i | 0 <= i < |lines| ensures lines[i] != [] && NoLineBreak(lines[i]) {
      assert shown[i] == qs[i];
      assert lines[i] == "- " + shown[i];
      assert forall j :: 2 <= j < |lines[i]| ==> lines[i][j] == shown[i][j - 2];
    }
    SplitLinesJoin(lines);
    var r := ExistingQuestionsText(Some(qs));
    assert r == SuffixHeader + Join("\n", lines);
    assert r[|SuffixHeader|..] == Join("\n", lines);
  }

  /** What `generate_flashcards` puts into its prompt: the topic, the count and the questions it lists. */
  datatype Request = Request(title: Value, subtitle: Value, count: int, shown: seq<Value>)

  /** A configured `FlashcardGenerator`: `_call_llm` (which may raise) and `json.loads`. */
  datatype Generator = Generator(llm: Request -> Result<string, string>, decode: Decoder)

  /**
   * `generate_flashcards`: the request lists the first ten existing questions
   * when there are any; an exception of the model call escapes; parsing
   * never raises.
   */
  function GenerateFlashcards(gen: Generator, title: Value, subtitle: Value, count: int := 15,
                              existing: Option<seq<Value>> := None): (r: Result<seq<Value>, string>)
    ensures var shown := if existing.Some? then existing.value[..Min(10, |existing.value|)] else [];
            var req := Request(title, subtitle, count, shown);
            (r.Err? <==> gen.llm(req).Err?)
            && (r.Ok? ==> r.value == ParseFlashcards(gen.decode, gen.llm(req).value))
  {
    var shown := ShownQuestions(existing);
    assert shown == if existing.Some? then existing.value[..Min(10, |existing.value|)] else [];
    match gen.llm(Request(title, subtitle, count, shown))
    case Err(e) => Err(e)
    case Ok(response) => Ok(ParseFlashcards(gen.decode, response))
  }

  /**
   * A model that answers with one "```json" block holding a list gives back
   * that list, unfiltered.
   */
  lemma GenerateFromJsonBlock(gen: Generator, title: Value, subtitle: Value, count: int, existing: Option<seq<Value>>,
                              pre: string, body: string, post: string, items: seq<Value>)
    requires var shown := if existing.Some? then existing.value[..Min(10, |existing.value|)] else [];
             var reply := gen.llm(Request(title, subtitle, count, shown));
             reply.Ok? && Strip(reply.value) == pre + JsonFence + body + Fence + post
    requires NoBacktick(pre) && NoBacktick(body) && NoBacktick(post)
    requires gen.decode(BracketSpan(body)) == Some(Array(items))
    ensures GenerateFlashcards(gen, title, subtitle, count, existing) == Ok(items)
  {
    var shown := if existing.Some? then existing.value[..Min(10, |existing.value|)] else [];
    ParseJsonBlock(gen.decode, gen.llm(Request(title, subtitle, count, shown)).value, pre, body, post);
  }

  // ---------------------------------------------------------------------------
  /**
   * The `generator` that `expand_json_flashcards` calls, as its
   * `generate_flashcards(title, subtitle, count, existing_questions)`; a
   * configured one is `(t, s, c, e) => GenerateFlashcards(gen, t, s, c, e)`.
   */
  type CardSource = (Value, Value, int, Option<seq<Value>>) -> Result<seq<Value>, string>

  // expand_json_flashcards
  // ---------------------------------------------------------------------------

  /** `str(v)` for the scalar JSON values; lists and dicts (whose `str` is their `repr`) are not covered. */
  function StrOf(v: Value): Option<string> {
    match v
    case Null => Some("None")
    case Bool(b) => Some(if b then "True" else "False")
    case Number(n) => Some(IntToString(n))
    case String(s) => Some(s)
    case _ => None
  }

  /** The key of a topic in `flashcards`: `str(topic['id'])`. */
  function TopicKey(topic: Value): Option<string> {
    match Get(topic, "id")
    case None => None
    case Some(id) => StrOf(id)
  }

  /** `[card['q'] for card in cards]` over a list; `None` where some card has no `q`. */
  function CardQuestions(cards: seq<Value>): (r: Option<seq<Value>>)
    ensures r.Some? <==> forall i :: 0 <= i < |cards| ==> Get(cards[i], "q").Some?
    ensures r.Some? ==> |r.value| == |cards| && forall i :: 0 <= i < |cards| ==> Some(r.value[i]) == Get(cards[i], "q")
    decreases |cards|
  {
    if cards == [] then Some([])
    else
      match Get(cards[0], "q")
      case None => None
      case Some(q) =>
        match CardQuestions(cards[1..])
        case None => None
        case Some(rest) => Some([q] + rest)
  }

  /**
   * `[card['q'] for card in existing_cards]` for any value of the card entry:
   * iterating an empty string or dict gives nothing; a character or a dict key
   * cannot be indexed by `'q'`.
   */
  function QuestionsOf(existing: Value): Option<seq<Value>> {
    match existing
    case Array(cards) => CardQuestions(cards)
    case String(s) => if s == [] then Some([]) else None
    case Object(fields) => if fields == map[] then Some([]) else None
    case _ => None
  }

  /**
   * The `try` block for a short topic: the new card entry, or `None` where an
   * exception is caught (no `subtitle`, a failing model call, or a card entry
   * that is not a list and cannot be extended with `+`).
   */
  function Attempt(generate: CardSource, topic: Value, title: Value, needed: int, questions: seq<Value>, existing: Value)
    : Option<Value>
  {
    match Get(topic, "subtitle")
    case None => None
    case Some(subtitle) =>
      match generate(title, subtitle, needed, Some(questions))
      case Err(_) => None
      case Ok(newCards) => if existing.Array? then Some(Array(existing.items + newCards)) else None
  }

  /** One pass of the loop of `expand_json_flashcards` over `cards`; `None` where an exception escapes. */
  function ExpandTopic(cards: map<string, Value>, topic: Value, generate: CardSource, target: int): Option<map<string, Value>> {
    match TopicKey(topic)
    case None => None
    case Some(key) =>
      var existing := if key in cards then cards[key] else Array([]);
      match Len(existing)
      case None => None
      case Some(count) =>
        if Get(topic, "title").None? then None
        else if count >= target then Some(cards)
        else
          match QuestionsOf(existing)
          case None => None
          case Some(questions) =>
            match Attempt(generate, topic, Get(topic, "title").value, target - count, questions, existing)
            case None => Some(cards)
            case Some(entry) => Some(cards[key := entry])
  }

  /** The loop over the first `|topics|` topics. */
  function ExpandAll(cards: map<string, Value>, topics: seq<Value>, generate: CardSource, target: int): Option<map<string, Value>>
    decreases |topics|
  {
    if topics == [] then Some(cards)
    else
      match ExpandAll(cards, topics[..|topics| - 1], generate, target)
      case None => None
      case Some(c) => ExpandTopic(c, topics[|topics| - 1], generate, target)
  }

  /** `for topic in topics`: a list's elements; an empty string or dict gives no topic, a non-empty one fails on `topic['id']`. */
  function TopicList(topics: Value): Option<seq<Value>> {
    match topics
    case Array(items) => Some(items)
    case String(s) => if s == [] then Some([]) else None
    case Object(fields) => if fields == map[] then Some([]) else None
    case _ => None
  }

  /** `data.get(key, default)`. */
  function Field(fields: map<string, Value>, key: string, default: Value): Value {
    if key in fields then fields[key] else default
  }

  /** The record written to the output file. */
  function Output(topics: Value, flashcards: Value): Value {
    Object(map["topics" := topics, "flashcards" := flashcards])
  }

  datatype Expansion = Crashed | Saved(output: Value)

  /** `expand_json_flashcards` on the decoded input file. */
  function Expand(data: Value, generate: CardSource, target: int): Expansion {
    if !data.Object? then Crashed
    else
      var topics := Field(data.fields, "topics", Array([]));
      var flashcards := Field(data.fields, "flashcards", Object(map[]));
      match TopicList(topics)
      case None => Crashed
      case Some(list) =>
        if !flashcards.Object? then
          if list == [] then Saved(Output(topics, flashcards)) else Crashed
        else
          match ExpandAll(flashcards.fields, list, generate, target)
          case None => Crashed
          case Some(cards) => Saved(Output(topics, Object(cards)))
  }

  // --- properties of one topic ---

  /** A topic that already has `target` cards keeps its entry, and nothing else changes. */
  lemma FullTopicKept(cards: map<string, Value>, topic: Value, generate: CardSource, target: int)
    requires TopicKey(topic).Some? && Get(topic, "title").Some?
    requires var key := TopicKey(topic).value;
             Len(if key in cards then cards[key] else Array([])).Some?
             && Len(if key in cards then cards[key] else Array([])).value >= target
    ensures ExpandTopic(cards, topic, generate, target) == Some(cards)
  {
  }

  /**
   * A short topic with a list of cards that all have `q` is asked for exactly
   * `target - len(existing)` cards, listing the first ten existing questions;
   * if the call succeeds its entry becomes the old cards followed by every
   * parsed card, with no de-duplication, and otherwise the map is unchanged.
   */
  lemma ShortTopicExtended(cards: map<string, Value>, topic: Value, generate: CardSource, target: int)
    requires TopicKey(topic).Some? && Get(topic, "title").Some? && Get(topic, "subtitle").Some?
    requires var key := TopicKey(topic).value;
             var existing := if key in cards then cards[key] else Array([]);
             existing.Array? && |existing.items| < target
             && forall i :: 0 <= i < |existing.items| ==> Get(existing.items[i], "q").Some?
    ensures var key := TopicKey(topic).value;
            var existing := if key in cards then cards[key] else Array([]);
            ExpandTopic(cards, topic, generate, target)
              == Some(match generate(Get(topic, "title").value, Get(topic, "subtitle").value,
                                     target - |existing.items|, CardQuestions(existing.items))
                      case Err(_) => cards
                      case Ok(newCards) => cards[key := Array(existing.items + newCards)])
  {
    var key := TopicKey(topic).value;
    var existing := if key in cards then cards[key] else Array([]);
    var questions := CardQuestions(existing.items);
    assert QuestionsOf(existing) == questions && questions.Some?;
    assert Len(existing) == Some(|existing.items|);
  }

  /** A short topic with no `subtitle` is caught inside the `try` and left as it was. */
  lemma NoSubtitleKept(cards: map<string, Value>, topic: Value, generate: CardSource, target: int)
    requires ExpandTopic(cards, topic, generate, target).Some? && Get(topic, "subtitle").None?
    ensures ExpandTopic(cards, topic, generate, target) == Some(cards)
  {
  }

  /**
   * An exception outside the `try` ends the run: a topic without an `id`
   * (or without a scalar one) or a `title`, or a short topic whose list has a
   * card without `q`.
   */
  lemma TopicCrashes(cards: map<string, Value>, topic: Value, generate: CardSource, target: int)
    requires TopicKey(topic).None? || Get(topic, "title").None?
             || (var key := TopicKey(topic).value;
                 var existing := if key in cards then cards[key] else Array([]);
                 existing.Array? && |existing.items| < target
                 && exists i :: 0 <= i < |existing.items| && Get(existing.items[i], "q").None?)
    ensures ExpandTopic(cards, topic, generate, target).None?
  {
  }

  /** One step changes at most the entry of its own topic. */
  lemma ExpandTopicFrame(cards: map<string, Value>, topic: Value, generate: CardSource, target: int)
    requires ExpandTopic(cards, topic, generate, target).Some?
    ensures var c := ExpandTopic(cards, topic, generate, target).value;
            TopicKey(topic).Some?
            && c.Keys <= cards.Keys + {TopicKey(topic).value}
            && forall k :: k in cards && k != TopicKey(topic).value ==> k in c && c[k] == cards[k]
  {
  }

  // --- properties of the whole loop ---

  /** The keys of the topics (those that have one). */
  function TopicKeys(topics: seq<Value>): set<string>
    decreases |topics|
  {
    if topics == [] then {}
    else
      TopicKeys(topics[..|topics| - 1])
      + (match TopicKey(topics[|topics| - 1]) case None => {} case Some(k) => {k})
  }

  /** Entries that no topic names pass through the loop unchanged, and no other entry appears. */
  lemma {:induction false} ExpandAllFrame(cards: map<string, Value>, topics: seq<Value>, generate: CardSource, target: int)
    requires ExpandAll(cards, topics, generate, target).Some?
    ensures var c := ExpandAll(cards, topics, generate, target).value;
            c.Keys <= cards.Keys + TopicKeys(topics)
            && forall k :: k in cards && k !in TopicKeys(topics) ==> k in c && c[k] == cards[k]
    decreases |topics|
  {
    if topics != [] {
      var init := topics[..|topics| - 1];
      ExpandAllFrame(cards, init, generate, target);
      ExpandTopicFrame(ExpandAll(cards, init, generate, target).value, topics[|topics| - 1], generate, target);
    }
  }

  /** The loop after one more topic. */
  lemma ExpandAllStep(cards: map<string, Value>, topics: seq<Value>, i: nat, generate: CardSource, target: int)
    requires i < |topics|
    ensures ExpandAll(cards, topics[..i + 1], generate, target)
              == match ExpandAll(cards, topics[..i], generate, target)
                 case None => None
                 case Some(c) => ExpandTopic(c, topics[i], generate, target)
  {
    assert topics[..i + 1][..i] == topics[..i];
  }

  /** Once an exception escapes, the run ends with it. */
  lemma {:induction false} CrashPropagates(cards: map<string, Value>, topics: seq<Value>, i: nat, generate: CardSource, target: int)
    requires i <= |topics| && ExpandAll(cards, topics[..i], generate, target).None?
    ensures ExpandAll(cards, topics, generate, target).None?
    decreases |topics| - i
  {
    if i < |topics| {
      ExpandAllStep(cards, topics, i, generate, target);
      CrashPropagates(cards, topics, i + 1, generate, target);
    } else {
      assert topics[..i] == topics;
    }
  }

  /**
   * The saved record has exactly the two keys `topics` and `flashcards`; its
   * `topics` is the input's, and of the input's `flashcards` every entry that
   * no topic names is kept as it was.
   */
  lemma ExpandOutput(data: Value, generate: CardSource, target: int)
    requires Expand(data, generate, target).Saved?
    ensures var o := Expand(data, generate, target).output;
            data.Object? && o.Object? && o.fields.Keys == {"topics", "flashcards"}
            && o.fields["topics"] == Field(data.fields, "topics", Array([]))
            && (var before := Field(data.fields, "flashcards", Object(map[]));
                var after := o.fields["flashcards"];
                before.Object? ==>
                  after.Object?
                  && forall k :: k in before.fields && k !in TopicKeys(TopicList(o.fields["topics"]).value) ==>
                       k in after.fields && after.fields[k] == before.fields[k])
  {
    var topics := Field(data.fields, "topics", Array([]));
    var flashcards := Field(data.fields, "flashcards", Object(map[]));
    if flashcards.Object? {
      ExpandAllFrame(flashcards.fields, TopicList(topics).value, generate, target);
    }
  }

  /** The body of the loop of `expand_json_flashcards` for one topic, on the `flashcards` dict it updates. */
  method ExpandOne(cards: map<string, Value>, topic: Value, generate: CardSource, target: int)
    returns (next: Option<map<string, Value>>)
    ensures next == ExpandTopic(cards, topic, generate, target)
  {
    var key := TopicKey(topic);
    if key.None? {
      return None;
    }
    var existing := if key.value in cards then cards[key.value] else Array([]);
    var count := Len(existing);
    if count.None? || Get(topic, "title").None? {
      return None;
    }
    var title := Get(topic, "title").value;
    next := Some(cards);
    if count.value < target {
      var needed := target - count.value;
      var questions := QuestionsOf(existing);
      if questions.None? {
        return None;
      }
      var subtitle := Get(topic, "subtitle");
      if subtitle.Some? {
        var generated := generate(title, subtitle.value, needed, Some(questions.value));
        if generated.Ok? && existing.Array? {
          next := Some(cards[key.value := Array(existing.items + generated.value)]);
        }
      }
    }
  }

  /** `expand_json_flashcards`: the loop updates the `flashcards` dict in place, then the record is written. */
  method ExpandJsonFlashcards(data: Value, generate: CardSource, target: int := 15) returns (out: Expansion)
    ensures out == Expand(data, generate, target)
  {
    if !data.Object? {
      return Crashed;
    }
    var topics := Field(data.fields, "topics", Array([]));
    var flashcards := Field(data.fields, "flashcards", Object(map[]));
    var list := TopicList(topics);
    if list.None? {
      return Crashed;
    }
    var items := list.value;
    if !flashcards.Object? {
      // the first topic fails on `topic['id']`, on `str` or on `flashcards.get`
      if items == [] {
        return Saved(Output(topics, flashcards));
      }
      return Crashed;
    }
    var cards := flashcards.fields;
    var i := 0;
    while i < |items|
      invariant 0 <= i <= |items|
      invariant ExpandAll(flashcards.fields, items[..i], generate, target) == Some(cards)
    {
      ExpandAllStep(flashcards.fields, items, i, generate, target);
      var next := ExpandOne(cards, items[i], generate, target);
      if next.None? {
        CrashPropagates(flashcards.fields, items, i + 1, generate, target);
        return Crashed;
      }
      cards := next.value;
      i := i + 1;
    }
    assert items[..i] == items;
    out := Saved(Output(topics, Object(cards)));
  }
}
