/**
 * The string logic of json_scraper_generator.py: the whitespace cleanup of
 * `LegalContentScraper._extract_text` (on the text `get_text` returns), the
 * content truncation and the two prompts of `FlashcardGenerator`, and its
 * `_parse_flashcards`, which keeps only the elements that have both a `q`
 * and an `a`.
 */
module ScraperGenerator {
  import opened Wrappers
  import opened Collections
  import opened Text
  import opened Json
  import opened LlmResponse

  // ---------------------------------------------------------------------------
  // _extract_text: lines stripped, split at double spaces, pieces stripped,
  // empty pieces dropped, the rest joined with "\n"
  // ---------------------------------------------------------------------------

  const DoubleSpace: string := "  "

  /** `phrase.strip() for phrase in line.strip().split("  ")`. */
  function Phrases(line: string): seq<string> {
    MapSeq(Strip, SplitOn(Strip(line), DoubleSpace))
  }

  /** The phrases of every line, line after line. */
  function AllPhrases(lines: seq<string>): seq<string>
    decreases |lines|
  {
    if lines == [] then [] else Phrases(lines[0]) + AllPhrases(lines[1..])
  }

  predicate IsChunk(c: string) {
    c != []
  }

  /** The chunks `_extract_text` keeps, in order. */
  function Chunks(text: string): seq<string> {
    Filter(IsChunk, AllPhrases(SplitLines(text)))
  }

  function ExtractText(text: string): string {
    Join("\n", Chunks(text))
  }

  /** A non-empty piece of text with no white space at either end, no double space and no line break. */
  predicate CleanChunk(c: string) {
    c != [] && !IsSpace(c[0]) && !IsSpace(c[|c| - 1]) && !Contains(c, DoubleSpace) && NoLineBreak(c)
  }

  predicate CleanOrEmpty(c: string) {
    c == [] || CleanChunk(c)
  }

  lemma PhrasesClean(line: string)
    requires NoLineBreak(line)
    ensures forall k :: 0 <= k < |Phrases(line)| ==> CleanOrEmpty(Phrases(line)[k])
  {
    var s := Strip(line);
    var a, b :| 0 <= a <= b <= |line| && s == line[a..b] && AllSpace(line[..a]) && AllSpace(line[b..]);
    NoLineBreakSlice(line, a, b);
    var parts := SplitOn(s, DoubleSpace);
    NoLineBreakJoin(DoubleSpace, parts);
    forall k | 0 <= k < |parts| ensures CleanOrEmpty(Strip(parts[k])) {
      var p := parts[k];
      var a2, b2 :| 0 <= a2 <= b2 <= |p| && Strip(p) == p[a2..b2] && AllSpace(p[..a2]) && AllSpace(p[b2..]);
      NoLineBreakSlice(p, a2, b2);
      NotContainsSlice(p, DoubleSpace, a2, b2);
    }
  }

  lemma {:induction false} AllPhrasesClean(lines: seq<string>)
    requires forall i :: 0 <= i < |lines| ==> NoLineBreak(lines[i])
    ensures forall k :: 0 <= k < |AllPhrases(lines)| ==> CleanOrEmpty(AllPhrases(lines)[k])
    decreases |lines|
  {
    if lines != [] {
      PhrasesClean(lines[0]);
      AllPhrasesClean(lines[1..]);
      var head, rest := Phrases(lines[0]), AllPhrases(lines[1..]);
      forall k | 0 <= k < |head + rest| ensures CleanOrEmpty((head + rest)[k]) {
        AppendIndex(head, rest, k);
      }
    }
  }

  /**
   * Every line `_extract_text` returns is a clean chunk, and splitting its
   * result into lines gives back exactly the chunks, in their order.
   */
  lemma ExtractTextLines(text: string)
    ensures forall i :: 0 <= i < |Chunks(text)| ==> CleanChunk(Chunks(text)[i])
    ensures SplitLines(ExtractText(text)) == Chunks(text)
  {
    var xs := AllPhrases(SplitLines(text));
    AllPhrasesClean(SplitLines(text));
    FilterSpec(IsChunk, xs);
    var cs := Chunks(text);
    forall i | 0 <= i < |cs| ensures CleanChunk(cs[i]) {
      assert cs[i] in multiset(cs);
      assert cs[i] in xs;
    }
    SplitLinesJoin(cs);
  }

  lemma {:induction false} StripAllNonSpace(parts: seq<string>)
    ensures NonSpace(Concat(MapSeq(Strip, parts))) == NonSpace(Concat(parts))
    decreases |parts|
  {
    if parts != [] {
      StripAllNonSpace(parts[1..]);
      var stripped := MapSeq(Strip, parts);
      assert stripped[1..] == MapSeq(Strip, parts[1..]);
      NonSpaceConcat(Strip(parts[0]), Concat(stripped[1..]));
      NonSpaceConcat(parts[0], Concat(parts[1..]));
    }
  }

  lemma PhrasesNonSpace(line: string)
    ensures NonSpace(Concat(Phrases(line))) == NonSpace(line)
  {
    var s := Strip(line);
    PiecesNonSpace(line, s, SplitOn(s, DoubleSpace));
  }

  /** Stripping the pieces of `s` cut at double spaces keeps its non-whitespace content. */
  lemma PiecesNonSpace(line: string, s: string, parts: seq<string>)
    requires NonSpace(s) == NonSpace(line) && Join(DoubleSpace, parts) == s
    ensures NonSpace(Concat(MapSeq(Strip, parts))) == NonSpace(line)
  {
    StripAllNonSpace(parts);
    assert AllSpace(DoubleSpace) by {
      assert IsSpace(' ');
    }
    NonSpaceJoin(DoubleSpace, parts);
  }

  lemma {:induction false} AllPhrasesNonSpace(lines: seq<string>)
    ensures NonSpace(Concat(AllPhrases(lines))) == NonSpace(Concat(lines))
    decreases |lines|
  {
    if lines != [] {
      AllPhrasesNonSpace(lines[1..]);
      ConcatAppend(Phrases(lines[0]), AllPhrases(lines[1..]));
      PhrasesNonSpace(lines[0]);
      NonSpaceConcat(Concat(Phrases(lines[0])), Concat(AllPhrases(lines[1..])));
      NonSpaceConcat(lines[0], Concat(lines[1..]));
    }
  }

  lemma {:induction false} ConcatDropsEmpty(xs: seq<string>)
    ensures Concat(Filter(IsChunk, xs)) == Concat(xs)
    decreases |xs|
  {
    if xs != [] {
      ConcatDropsEmpty(xs[1..]);
      if xs[0] != [] {
        var r := Filter(IsChunk, xs);
        assert r == [xs[0]] + Filter(IsChunk, xs[1..]);
        assert r[1..] == Filter(IsChunk, xs[1..]);
      } else {
        assert Concat(xs) == [] + Concat(xs[1..]);
      }
    }
  }

  /** The cleanup only removes white space: the visible characters and their order are those of the input. */
  lemma ExtractTextNonSpace(text: string)
    ensures NonSpace(ExtractText(text)) == NonSpace(text)
  {
    assert AllSpace("\n") by {
      assert IsSpace('\n');
    }
    NonSpaceJoin("\n", Chunks(text));
    ConcatDropsEmpty(AllPhrases(SplitLines(text)));
    AllPhrasesNonSpace(SplitLines(text));
    SplitLinesNonSpace(text);
  }

  // ---------------------------------------------------------------------------
  // generate_from_content / generate_topic_cards
  // ---------------------------------------------------------------------------

  const MaxContentLength: nat := 8000

  /**
   * Content longer than 8000 characters is cut to its first 8000 followed
   * by "..."; shorter content is kept as it is.
   */
  function TruncateContent(content: string): (r: string)
    ensures |content| <= MaxContentLength ==> r == content
    ensures |content| > MaxContentLength ==>
              |r| == MaxContentLength + 3 && r[..MaxContentLength] == content[..MaxContentLength] && r[MaxContentLength..] == "..."
  {
    if |content| > MaxContentLength then content[..MaxContentLength] + "..." else content
  }

  /** Truncating twice is truncating once. */
  lemma TruncateIdempotent(content: string)
    ensures TruncateContent(TruncateContent(content)) == TruncateContent(content)
  {
    var r := TruncateContent(content);
    if |content| > MaxContentLength {
      assert r[..MaxContentLength] + "..." == r;
    }
  }

  /** What the generator sends to the model; the wording of the prompt text is not modelled. */
  datatype Prompt =
    | ContentPrompt(topic: string, content: string, count: int)
    | TopicPrompt(title: Value, subtitle: Value, count: int)

  /** An LLM provider: the reply text, or `Err` where the call raises. */
  type Llm = Prompt -> Result<string, string>

  /** `'q' in card and 'a' in card`: `None` where it raises; the second test runs only when the first holds. */
  function HasQA(card: Value): Option<bool> {
    match In("q", card)
    case None => None
    case Some(hasQ) => if hasQ then In("a", card) else Some(false)
  }

  predicate IsCard(card: Value) {
    In("q", card) == Some(true) && In("a", card) == Some(true)
  }

  predicate Container(card: Value) {
    In("q", card).Some?
  }

  /** `[card for card in cards if 'q' in card and 'a' in card]`, `None` if any test raises. */
  function KeepCards(cards: seq<Value>): Option<seq<Value>>
    decreases |cards|
  {
    if cards == [] then Some([])
    else
      match HasQA(cards[0])
      case None => None
      case Some(keep) =>
        match KeepCards(cards[1..])
        case None => None
        case Some(rest) => Some(if keep then [cards[0]] + rest else rest)
  }

  /**
   * The comprehension raises exactly when some element is not a container,
   * and otherwise keeps, in order, exactly the elements that have both keys.
   */
  lemma {:induction false} KeepCardsSpec(cards: seq<Value>)
    ensures KeepCards(cards).None? <==> exists i :: 0 <= i < |cards| && !Container(cards[i])
    ensures KeepCards(cards).None? <==> exists i :: 0 <= i < |cards| && (cards[i].Null? || cards[i].Bool? || cards[i].Number?)
    ensures KeepCards(cards).Some? ==> KeepCards(cards).value == Filter(IsCard, cards)
    decreases |cards|
  {
    assert forall i :: 0 <= i < |cards| ==> (!Container(cards[i]) <==> (cards[i].Null? || cards[i].Bool? || cards[i].Number?));
    if cards != [] {
      KeepCardsSpec(cards[1..]);
      var c := cards[0];
      assert HasQA(c).None? <==> !Container(c);
      assert HasQA(c) == Some(true) <==> IsCard(c);
      if exists i :: 0 <= i < |cards[1..]| && !Container(cards[1..][i]) {
        var i :| 0 <= i < |cards[1..]| && !Container(cards[1..][i]);
        assert !Container(cards[i + 1]);
      }
      if exists i :: 0 <= i < |cards| && !Container(cards[i]) {
        var i :| 0 <= i < |cards| && !Container(cards[i]);
        if i > 0 {
          assert !Container(cards[1..][i - 1]);
        }
      }
    }
  }

  /** `_parse_flashcards`: the decoded list filtered to cards with `q` and `a`; `[]` whenever anything fails. */
  function ParseFlashcards(decode: Decoder, response: string): (cards: seq<Value>)
    ensures forall i :: 0 <= i < |cards| ==> IsCard(cards[i])
  {
    match decode(Candidate(response))
    case Some(Array(items)) =>
      KeepCardsSpec(items);
      (match KeepCards(items)
       case Some(kept) => kept
       case None => [])
    case _ => []
  }

  /**
   * A decode failure or a non-list gives `[]`; a list with a non-container
   * element gives `[]`; any other list gives the order-preserving sub-list
   * of its elements that pass both membership tests.
   */
  lemma ParseFlashcardsSpec(decode: Decoder, response: string)
    ensures var d := decode(Candidate(response));
            !(d.Some? && d.value.Array?) ==> ParseFlashcards(decode, response) == []
    ensures var d := decode(Candidate(response));
            d.Some? && d.value.Array? ==>
              if exists i :: 0 <= i < |d.value.items| && !Container(d.value.items[i])
              then ParseFlashcards(decode, response) == []
              else ParseFlashcards(decode, response) == Filter(IsCard, d.value.items)
  {
    var d := decode(Candidate(response));
    if d.Some? && d.value.Array? {
      KeepCardsSpec(d.value.items);
    }
  }

  /** The parsed cards all come from the decoded list, in its order. */
  lemma ParseFlashcardsSubseq(decode: Decoder, response: string)
    requires decode(Candidate(response)).Some? && decode(Candidate(response)).value.Array?
    ensures IsSubseq(ParseFlashcards(decode, response), decode(Candidate(response)).value.items)
  {
    var items := decode(Candidate(response)).value.items;
    ParseFlashcardsSpec(decode, response);
    FilterSpec(IsCard, items);
    if exists i :: 0 <= i < |items| && !Container(items[i]) {
      assert IsSubseq([], items);
    }
  }

  /** A string element passes when it contains both letters: `'q' in "qa"` is a substring test. */
  lemma StringCardKept()
    ensures KeepCards([String("qa")]) == Some([String("qa")])
  {
    var s := "qa";
    assert s[..1] == "q" && s[1..] == "a" && s[1..][..1] == "a";
    assert In("q", String(s)) == Some(true);
    assert In("a", String(s)) == Some(true);
    assert HasQA(String(s)) == Some(true);
    var cards := [String(s)];
    assert cards[0] == String(s) && cards[1..] == [];
    assert KeepCards(cards[1..]) == Some([]);
    assert [cards[0]] + [] == cards;
    assert KeepCards(cards) == Some([cards[0]] + []);
  }

  /** `generate_topic_cards`: a failing LLM call gives `[]`; otherwise the parsed reply. */
  function GenerateTopicCards(llm: Llm, decode: Decoder, title: Value, subtitle: Value, count: int := 15): (cards: seq<Value>)
    ensures forall i :: 0 <= i < |cards| ==> IsCard(cards[i])
    ensures llm(TopicPrompt(title, subtitle, count)).Err? ==> cards == []
    ensures llm(TopicPrompt(title, subtitle, count)).Ok? ==>
              cards == ParseFlashcards(decode, llm(TopicPrompt(title, subtitle, count)).value)
  {
    match llm(TopicPrompt(title, subtitle, count))
    case Err(_) => []
    case Ok(reply) => ParseFlashcards(decode, reply)
  }

  /**
   * `generate_from_content`: the prompt carries the content cut to 8000
   * characters; a failing LLM call gives `[]`, otherwise the parsed reply.
   */
  function GenerateFromContent(llm: Llm, decode: Decoder, content: string, topic: string, count: int := 15): (cards: seq<Value>)
    ensures forall i :: 0 <= i < |cards| ==> IsCard(cards[i])
    ensures llm(ContentPrompt(topic, TruncateContent(content), count)).Err? ==> cards == []
    ensures llm(ContentPrompt(topic, TruncateContent(content), count)).Ok? ==>
              cards == ParseFlashcards(decode, llm(ContentPrompt(topic, TruncateContent(content), count)).value)
  {
    match llm(ContentPrompt(topic, TruncateContent(content), count))
    case Err(_) => []
    case Ok(reply) => ParseFlashcards(decode, reply)
  }

  /**
   * A reply whose stripped text is one "```json" block with no other
   * backtick, and whose body's bracket span decodes to a list of containers,
   * gives exactly the elements of that list that have `q` and `a`, in order.
   */
  lemma ParseJsonBlock(decode: Decoder, reply: string, pre: string, body: string, post: string, items: seq<Value>)
    requires Strip(reply) == pre + JsonFence + body + Fence + post
    requires NoBacktick(pre) && NoBacktick(body) && NoBacktick(post)
    requires decode(BracketSpan(body)) == Some(Array(items))
    requires forall i :: 0 <= i < |items| ==> Container(items[i])
    ensures ParseFlashcards(decode, reply) == Filter(IsCard, items)
  {
    JsonBlockCandidate(reply, pre, body, post);
    ParseFlashcardsSpec(decode, reply);
  }

  /** The model's json-block answer to the topic prompt gives its cards with `q` and `a`. */
  lemma TopicCardsFromJsonBlock(llm: Llm, decode: Decoder, title: Value, subtitle: Value, count: int,
                                pre: string, body: string, post: string, items: seq<Value>)
    requires llm(TopicPrompt(title, subtitle, count)).Ok?
    requires Strip(llm(TopicPrompt(title, subtitle, count)).value) == pre + JsonFence + body + Fence + post
    requires NoBacktick(pre) && NoBacktick(body) && NoBacktick(post)
    requires decode(BracketSpan(body)) == Some(Array(items))
    requires forall i :: 0 <= i < |items| ==> Container(items[i])
    ensures GenerateTopicCards(llm, decode, title, subtitle, count) == Filter(IsCard, items)
  {
    ParseJsonBlock(decode, llm(TopicPrompt(title, subtitle, count)).value, pre, body, post, items);
  }

  /**
   * The model is asked about the content cut to 8000 characters, and its
   * json-block answer gives its cards with `q` and `a`.
   */
  lemma ContentCardsFromJsonBlock(llm: Llm, decode: Decoder, content: string, topic: string, count: int,
                                  pre: string, body: string, post: string, items: seq<Value>)
    requires llm(ContentPrompt(topic, TruncateContent(content), count)).Ok?
    requires Strip(llm(ContentPrompt(topic, TruncateContent(content), count)).value) == pre + JsonFence + body + Fence + post
    requires NoBacktick(pre) && NoBacktick(body) && NoBacktick(post)
    requires decode(BracketSpan(body)) == Some(Array(items))
    requires forall i :: 0 <= i < |items| ==> Container(items[i])
    ensures GenerateFromContent(llm, decode, content, topic, count) == Filter(IsCard, items)
  {
    ParseJsonBlock(decode, llm(ContentPrompt(topic, TruncateContent(content), count)).value, pre, body, post, items);
  }
}
