/**
 * `JSONManager` of json_scraper_generator.py: a data directory of topic files,
 * here a map from file name to the decoded JSON each file holds. A topic
 * record keeps its cards under `flashcards` (a list of `{q, a}` objects) and
 * its names under `topic_title` and `topic_subtitle`.
 */
module TopicStore {
  import opened Wrappers
  import opened Collections
  import opened Json
  import opened ScraperGenerator

  /** `{}`: what `load_topic` returns for a missing file. */
  const EmptyTopic: Value := Object(map[])

  /** A card whose `card['q']` succeeds and can go into a set. */
  predicate Keyed(card: Value) {
    Get(card, "q").Some? && Hashable(Get(card, "q").value)
  }

  /** `{card['q'] for card in cards}`; `None` where `card['q']` raises or cannot be hashed. */
  function Questions(cards: seq<Value>): Option<set<Value>>
    decreases |cards|
  {
    if cards == [] then Some({})
    else
      match Get(cards[0], "q")
      case None => None
      case Some(q) =>
        if !Hashable(q) then None
        else
          match Questions(cards[1..])
          case None => None
          case Some(rest) => Some({q} + rest)
  }

  /** The set is built exactly when every card is keyed, and holds exactly their questions. */
  lemma {:induction false} QuestionsSpec(cards: seq<Value>)
    ensures Questions(cards).Some? <==> forall i :: 0 <= i < |cards| ==> Keyed(cards[i])
    ensures Questions(cards).Some? ==>
              forall q :: q in Questions(cards).value <==> exists i :: 0 <= i < |cards| && Get(cards[i], "q") == Some(q)
    decreases |cards|
  {
    if cards != [] {
      QuestionsSpec(cards[1..]);
      assert forall i :: 1 <= i < |cards| ==> cards[i] == cards[1..][i - 1];
      if Questions(cards).Some? {
        forall q | q in Questions(cards).value ensures exists i :: 0 <= i < |cards| && Get(cards[i], "q") == Some(q) {
          if Get(cards[0], "q") != Some(q) {
            var i :| 0 <= i < |cards[1..]| && Get(cards[1..][i], "q") == Some(q);
            assert Get(cards[i + 1], "q") == Some(q);
          }
        }
      }
    }
  }

  /** The questions of two card lists put together. */
  lemma {:induction false} QuestionsAppend(a: seq<Value>, b: seq<Value>)
    requires Questions(a).Some? && Questions(b).Some?
    ensures Questions(a + b) == Some(Questions(a).value + Questions(b).value)
    decreases |a|
  {
    if a == [] {
      assert a + b == b;
      assert Questions(a).value == {};
      assert {} + Questions(b).value == Questions(b).value;
      assert Questions(a + b) == Questions(b);
    } else {
      assert (a + b)[1..] == a[1..] + b;
      assert (a + b)[0] == a[0];
      QuestionsAppend(a[1..], b);
      var q := Get(a[0], "q").value;
      assert Questions(a) == Some({q} + Questions(a[1..]).value);
      assert Questions(a + b) == Some({q} + Questions(a[1..] + b).value);
      assert {q} + (Questions(a[1..]).value + Questions(b).value) == ({q} + Questions(a[1..]).value) + Questions(b).value;
    }
  }

  /** The filter of `add_cards_to_topic`: a card passes when its question is not in `existing`. */
  function IsNovel(existing: set<Value>): Value -> bool {
    (card: Value) => Get(card, "q").Some? && Get(card, "q").value !in existing
  }

  /** `[card for card in new_cards if card['q'] not in existing]`; `None` where `card['q']` raises or cannot be hashed. */
  function Novel(newCards: seq<Value>, existing: set<Value>): (r: Option<seq<Value>>)
    ensures r.Some? ==> |r.value| <= |newCards|
    decreases |newCards|
  {
    if newCards == [] then Some([])
    else
      match Get(newCards[0], "q")
      case None => None
      case Some(q) =>
        if !Hashable(q) then None
        else
          match Novel(newCards[1..], existing)
          case None => None
          case Some(rest) => Some(if q in existing then rest else [newCards[0]] + rest)
  }

  /**
   * The comprehension raises exactly when some new card is not keyed, and
   * otherwise keeps, in order and with repeats, the cards whose question is new.
   */
  lemma {:induction false} NovelSpec(newCards: seq<Value>, existing: set<Value>)
    ensures Novel(newCards, existing).Some? <==> forall i :: 0 <= i < |newCards| ==> Keyed(newCards[i])
    ensures Novel(newCards, existing).Some? ==> Novel(newCards, existing).value == Filter(IsNovel(existing), newCards)
    decreases |newCards|
  {
    if newCards != [] {
      NovelSpec(newCards[1..], existing);
      assert forall i :: 1 <= i < |newCards| ==> newCards[i] == newCards[1..][i - 1];
    }
  }

  /** What `add_cards_to_topic` does to the record it loaded. */
  datatype AddOutcome =
    | NoTopic                                               // `if not data`: nothing saved
    | Crashed                                               // an exception escapes; nothing saved
    | Added(topic: map<string, Value>, added: nat, filtered: nat)  // the saved record and the two reported counts

  /** `data.get('flashcards', [])`. */
  function OldCards(fields: map<string, Value>): Value {
    if "flashcards" in fields then fields["flashcards"] else Array([])
  }

  /** The effect of `add_cards_to_topic` on the record `data` that `load_topic` returned. */
  function AddCards(data: Value, newCards: seq<Value>): AddOutcome {
    if !Truthy(data) then NoTopic
    else if !data.Object? then Crashed
    else
      var existing := OldCards(data.fields);
      if !existing.Array? then Crashed
      else
        match Questions(existing.items)
        case None => Crashed
        case Some(seen) =>
          match Novel(newCards, seen)
          case None => Crashed
          case Some(unique) =>
            Added(data.fields["flashcards" := Array(existing.items + unique)], |unique|, |newCards| - |unique|)
  }

  /**
   * A saved record keeps every other key as it was, and its cards are the old
   * cards followed by the new cards whose question is not among the old ones;
   * the added and filtered counts add up to the number of new cards.
   */
  lemma AddCardsSpec(data: Value, newCards: seq<Value>)
    requires AddCards(data, newCards).Added?
    ensures var r := AddCards(data, newCards);
            data.Object? && OldCards(data.fields).Array? && Questions(OldCards(data.fields).items).Some?
            && r.topic.Keys == data.fields.Keys + {"flashcards"}
            && (forall k :: k in data.fields && k != "flashcards" ==> r.topic[k] == data.fields[k])
            && r.topic["flashcards"] == Array(OldCards(data.fields).items
                                              + Filter(IsNovel(Questions(OldCards(data.fields).items).value), newCards))
            && r.added + r.filtered == |newCards|
  {
    var seen := Questions(OldCards(data.fields).items).value;
    NovelSpec(newCards, seen);
  }

  /**
   * `add_cards_to_topic` raises exactly when the record is truthy but is not a
   * dict, its `flashcards` is not a list, or an old or a new card is not keyed.
   */
  lemma AddCardsCrashes(data: Value, newCards: seq<Value>)
    ensures AddCards(data, newCards) == Crashed <==>
              Truthy(data) &&
              (!data.Object? || !OldCards(data.fields).Array?
               || (exists i :: 0 <= i < |OldCards(data.fields).items| && !Keyed(OldCards(data.fields).items[i]))
               || (exists i :: 0 <= i < |newCards| && !Keyed(newCards[i])))
  {
    if Truthy(data) && data.Object? && OldCards(data.fields).Array? {
      QuestionsSpec(OldCards(data.fields).items);
      if Questions(OldCards(data.fields).items).Some? {
        NovelSpec(newCards, Questions(OldCards(data.fields).items).value);
      }
    }
  }

  /** Once every question of the new cards is in `existing`, nothing more passes. */
  lemma {:induction false} NovelNone(newCards: seq<Value>, existing: set<Value>)
    requires forall i :: 0 <= i < |newCards| ==> Keyed(newCards[i]) && Get(newCards[i], "q").value in existing
    ensures Novel(newCards, existing) == Some([])
    decreases |newCards|
  {
    if newCards != [] {
      assert forall i :: 1 <= i < |newCards| ==> newCards[i] == newCards[1..][i - 1];
      NovelNone(newCards[1..], existing);
    }
  }

  /** Every new card's question is either already seen or among the questions of the cards that pass. */
  lemma {:induction false} NovelCovers(newCards: seq<Value>, existing: set<Value>)
    requires Novel(newCards, existing).Some?
    ensures Questions(Novel(newCards, existing).value).Some?
    ensures forall i :: 0 <= i < |newCards| ==>
              Keyed(newCards[i])
              && Get(newCards[i], "q").value in existing + Questions(Novel(newCards, existing).value).value
    decreases |newCards|
  {
    if newCards != [] {
      var rest := Novel(newCards[1..], existing).value;
      NovelCovers(newCards[1..], existing);
      assert forall i :: 1 <= i < |newCards| ==> newCards[i] == newCards[1..][i - 1];
      var q := Get(newCards[0], "q").value;
      if q !in existing {
        var u := [newCards[0]] + rest;
        assert u[0] == newCards[0] && u[1..] == rest;
        assert Questions(u) == Some({q} + Questions(rest).value);
      }
    }
  }

  /** Adding the same batch a second time adds nothing and leaves the record as the first addition saved it. */
  lemma AddTwiceAddsNothing(data: Value, newCards: seq<Value>)
    requires AddCards(data, newCards).Added?
    ensures AddCards(Object(AddCards(data, newCards).topic), newCards) == Added(AddCards(data, newCards).topic, 0, |newCards|)
  {
    var t := AddCards(data, newCards).topic;
    var old_ := OldCards(data.fields).items;
    var seen := Questions(old_).value;
    var unique := Novel(newCards, seen).value;
    NovelCovers(newCards, seen);
    QuestionsAppend(old_, unique);
    NovelNone(newCards, seen + Questions(unique).value);
    assert OldCards(t) == Array(old_ + unique);
    assert Truthy(Object(t)) by {
      assert "flashcards" in t;
    }
    assert old_ + unique + [] == old_ + unique;
    assert t["flashcards" := Array(old_ + unique + [])] == t;
  }

  /** Repeats inside one batch are not filtered: the same new card twice is added twice. */
  lemma RepeatsInBatchKept()
    ensures var card := Object(map["q" := String("Q"), "a" := String("A")]);
            AddCards(Object(map["flashcards" := Array([])]), [card, card])
              == Added(map["flashcards" := Array([card, card])], 2, 0)
  {
    var card := Object(map["q" := String("Q"), "a" := String("A")]);
    var data := Object(map["flashcards" := Array([])]);
    assert Truthy(data) by {
      assert "flashcards" in data.fields;
    }
    assert Get(card, "q") == Some(String("Q"));
    assert OldCards(data.fields) == Array([]);
    assert Questions([]) == Some({});
    assert [card, card][1..] == [card];
    assert [card][1..] == [];
    assert Novel([], {}) == Some([]);
    assert [card] + [] == [card];
    assert Novel([card], {}) == Some([card]);
    assert [card] + [card] == [card, card];
    assert Novel([card, card], {}) == Some([card, card]);
    assert [] + [card, card] == [card, card];
  }

  /** A string card passes `_parse_flashcards` when it contains `q` and `a`, and then makes `add_cards_to_topic` raise. */
  lemma StringCardCrashes(data: Value)
    requires AddCards(data, []).Added?
    ensures KeepCards([String("qa")]) == Some([String("qa")])
    ensures AddCards(data, [String("qa")]) == Crashed
  {
    StringCardKept();
    var cards := [String("qa")];
    assert !Keyed(cards[0]);
    AddCardsCrashes(data, cards);
  }

  // ---------------------------------------------------------------------------
  // ensure_minimum_cards
  // ---------------------------------------------------------------------------

  /** `generator`: a model behind `generate_topic_cards`. */
  datatype Generator = Generator(llm: Llm, decode: Decoder)

  /** How far `ensure_minimum_cards` gets before it would add cards. */
  datatype Check =
    | Missing                                          // `if not data`
    | Raises                                           // an exception escapes
    | Enough(count: nat)                               // already `count >= min_count` cards
    | Short(needed: int, generated: Option<seq<Value>>) // `needed` more; the cards generated, if there is a generator

  /** `ensure_minimum_cards` up to the call of `add_cards_to_topic`. */
  function CheckMinimum(data: Value, minCount: int, gen: Option<Generator>): Check {
    if !Truthy(data) then Missing
    else if !data.Object? then Raises
    else
      match Len(OldCards(data.fields))
      case None => Raises
      case Some(current) =>
        if "topic_title" !in data.fields then Raises
        else if current >= minCount then Enough(current)
        else
          var needed := minCount - current;
          match gen
          case None => Short(needed, None)
          case Some(g) =>
            if "topic_subtitle" !in data.fields then Raises
            else
              Short(needed, Some(GenerateTopicCards(g.llm, g.decode, data.fields["topic_title"],
                                                    data.fields["topic_subtitle"], needed)))
  }

  /** Whether `ensure_minimum_cards` goes on to `add_cards_to_topic`: only when the generator returned cards. */
  predicate Adds(c: Check) {
    c.Short? && c.generated.Some? && c.generated.value != []
  }

  /**
   * Cards are requested only for a short topic with a generator, and then
   * exactly `min_count - len(flashcards)` of them, under the topic's own title
   * and subtitle.
   */
  lemma ShortfallRequested(data: Value, minCount: int, gen: Option<Generator>)
    requires CheckMinimum(data, minCount, gen).Short?
    ensures var c := CheckMinimum(data, minCount, gen);
            data.Object? && Len(OldCards(data.fields)).Some?
            && c.needed == minCount - Len(OldCards(data.fields)).value > 0
            && (c.generated.Some? <==> gen.Some?)
            && (gen.Some? ==> c.generated.value == GenerateTopicCards(gen.value.llm, gen.value.decode,
                                                     data.fields["topic_title"], data.fields["topic_subtitle"],
                                                     minCount - Len(OldCards(data.fields)).value))
  {
  }

  /** A topic with enough cards, or no generator, never reaches `add_cards_to_topic`. */
  lemma NoAddWithoutNeedOrGenerator(data: Value, minCount: int, gen: Option<Generator>)
    requires data.Object? && Len(OldCards(data.fields)).Some?
    requires Len(OldCards(data.fields)).value >= minCount || gen.None?
    ensures !Adds(CheckMinimum(data, minCount, gen))
  {
  }

  /** The data directory. */
  class JsonManager {
    var files: map<string, Value>

    constructor (initial: map<string, Value>)
      ensures files == initial
    {
      files := initial;
    }

    /** `load_topic`: the file's record, or `{}` (which is falsy) when the file is missing. */
    function LoadTopic(filename: string): (data: Value)
      reads this
      ensures filename !in files ==> data == EmptyTopic && !Truthy(data)
      ensures filename in files ==> data == files[filename]
    {
      if filename in files then files[filename] else EmptyTopic
    }

    /** `save_topic`: only `filename` is rewritten. */
    method SaveTopic(filename: string, data: map<string, Value>)
      modifies this
      ensures files == old(files)[filename := Object(data)]
    {
      files := files[filename := Object(data)];
    }

    /** `add_cards_to_topic`: load, return if falsy, append the cards with new questions, save. */
    method AddCardsToTopic(filename: string, newCards: seq<Value>) returns (outcome: AddOutcome)
      modifies this
      ensures outcome == AddCards(old(LoadTopic(filename)), newCards)
      ensures outcome.Added? ==> files == old(files)[filename := Object(outcome.topic)]
      ensures !outcome.Added? ==> files == old(files)
    {
      var data := LoadTopic(filename);
      if !Truthy(data) {
        return NoTopic;
      }
      if !data.Object? {
        return Crashed;
      }
      var existing := OldCards(data.fields);
      if !existing.Array? {
        return Crashed;
      }
      var seen := Questions(existing.items);
      if seen.None? {
        return Crashed;
      }
      var unique := Novel(newCards, seen.value);
      if unique.None? {
        return Crashed;
      }
      var record := data.fields["flashcards" := Array(existing.items + unique.value)];
      SaveTopic(filename, record);
      outcome := Added(record, |unique.value|, |newCards| - |unique.value|);
    }

    /**
     * `ensure_minimum_cards`: nothing changes unless the topic is short, a
     * generator is given and it returns cards; then those cards go through
     * `add_cards_to_topic` on the same file.
     */
    method EnsureMinimumCards(filename: string, minCount: int := 15, gen: Option<Generator> := None)
      returns (check: Check, added: Option<AddOutcome>)
      modifies this
      ensures check == CheckMinimum(old(LoadTopic(filename)), minCount, gen)
      ensures Adds(check) ==> added == Some(AddCards(old(LoadTopic(filename)), check.generated.value))
      ensures Adds(check) && added.value.Added? ==> files == old(files)[filename := Object(added.value.topic)]
      ensures !(Adds(check) && added.value.Added?) ==> files == old(files)
      ensures !Adds(check) ==> added == None
    {
      var data := LoadTopic(filename);
      check := CheckMinimum(data, minCount, gen);
      added := None;
      if Adds(check) {
        var outcome := AddCardsToTopic(filename, check.generated.value);
        added := Some(outcome);
      }
    }
  }
}
