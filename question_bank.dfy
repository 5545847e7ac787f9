/**
 * The previous-year question bank (`AIBEPreviousYearsManager`): a sequence of
 * question records with exact-match filters, first-match lookup by id,
 * per-field counts, keyword search, the sorted list of referenced sections,
 * quota-driven test assembly and the mock-test record.
 *
 * The manager never changes its question list after loading it, so the
 * operations take that list as their first argument. Random choices come
 * from an explicit `Stream` (see module `Random`).
 */
module QuestionBank {
  import opened Wrappers
  import opened Collections
  import opened Text
  import opened Random

  /** One question record; the optional keys of the JSON record are `Option`s. */
  datatype Question = Question(
    id: int,
    year: string,
    subject: string,
    difficulty: Option<string>,
    question: string,
    options: seq<string>,
    correct: int,
    explanation: Option<string>,
    section: Option<string>,
    caseLaw: Option<string>)

  /** The message of the `ValueError` raised by `random.sample` for a negative size. */
  const SampleError: string := "Sample larger than population or is negative"

  function YearOf(q: Question): string { q.year }
  function SubjectOf(q: Question): string { q.subject }
  function DifficultyOf(q: Question): Option<string> { q.difficulty }

  // ---------------------------------------------------------------------------
  // Filters
  // ---------------------------------------------------------------------------

  /** `filter_by_year`: the questions of that year, in their original order. */
  function FilterByYear(qs: seq<Question>, year: string): (r: seq<Question>)
    ensures IsSubseq(r, qs)
    ensures forall q :: multiset(r)[q] == if q.year == year then multiset(qs)[q] else 0
  {
    FilterSpec(Select(YearOf, year), qs);
    Filter(Select(YearOf, year), qs)
  }

  /** `filter_by_subject`: the questions of that subject, in their original order. */
  function FilterBySubject(qs: seq<Question>, subject: string): (r: seq<Question>)
    ensures IsSubseq(r, qs)
    ensures forall q :: multiset(r)[q] == if q.subject == subject then multiset(qs)[q] else 0
    ensures forall i :: 0 <= i < |r| ==> r[i].subject == subject
  {
    FilterSpec(Select(SubjectOf, subject), qs);
    Filter(Select(SubjectOf, subject), qs)
  }

  /**
   * `filter_by_difficulty`: the questions whose `difficulty` key is present and
   * equal to `difficulty`; a question without the key never matches.
   */
  function FilterByDifficulty(qs: seq<Question>, difficulty: string): (r: seq<Question>)
    ensures IsSubseq(r, qs)
    ensures forall q :: multiset(r)[q] == if q.difficulty == Some(difficulty) then multiset(qs)[q] else 0
    ensures forall i :: 0 <= i < |r| ==> r[i].difficulty.Some?
  {
    FilterSpec(Select(DifficultyOf, Some(difficulty)), qs);
    Filter(Select(DifficultyOf, Some(difficulty)), qs)
  }

  function HasCaseLaw(q: Question): bool { q.caseLaw.Some? }

  /** `get_questions_with_case_law`: the questions carrying a `case_law` key, in order. */
  function GetQuestionsWithCaseLaw(qs: seq<Question>): (r: seq<Question>)
    ensures IsSubseq(r, qs)
    ensures forall q :: multiset(r)[q] == if q.caseLaw.Some? then multiset(qs)[q] else 0
  {
    FilterSpec(HasCaseLaw, qs);
    Filter(HasCaseLaw, qs)
  }

  // ---------------------------------------------------------------------------
  // Lookup and random selection
  // ---------------------------------------------------------------------------

  /** `get_by_id`: the first question with that id, or `None` when there is none. */
  method GetById(qs: seq<Question>, id: int) returns (r: Option<Question>)
    ensures r.None? <==> forall i :: 0 <= i < |qs| ==> qs[i].id != id
    ensures r.Some? ==> exists i :: 0 <= i < |qs| && qs[i] == r.value && qs[i].id == id
                                    && forall j :: 0 <= j < i ==> qs[j].id != id
  {
    var i := 0;
    while i < |qs|
      invariant 0 <= i <= |qs|
      invariant forall j :: 0 <= j < i ==> qs[j].id != id
    {
      if qs[i].id == id {
        return Some(qs[i]);
      }
      i := i + 1;
    }
    return None;
  }

  /**
   * `get_random_questions(count)`: `random.sample(qs, min(count, len(qs)))`,
   * which raises `ValueError` for a negative count.
   */
  function GetRandomQuestions(qs: seq<Question>, rng: Stream, count: int := 10): (r: Result<(seq<Question>, Stream), string>)
    ensures r.Err? <==> count < 0
    ensures r.Ok? ==> |r.value.0| == Min(count, |qs|) && multiset(r.value.0) <= multiset(qs)
  {
    var k := Min(count, |qs|);
    if k < 0 then Err(SampleError)
    else
      Ok(Sample(qs, k, rng))
  }

  // ---------------------------------------------------------------------------
  // Statistics
  // ---------------------------------------------------------------------------

  /** `get_subject_wise_stats`: `dict(Counter(q['subject'] for q in qs))`. */
  function SubjectStats(qs: seq<Question>): Counts<string> {
    Tally(MapSeq(SubjectOf, qs))
  }

  /** `get_year_wise_stats`: `dict(Counter(q['year'] for q in qs))`. */
  function YearStats(qs: seq<Question>): Counts<string> {
    Tally(MapSeq(YearOf, qs))
  }

  function DifficultyOrMedium(q: Question): string { q.difficulty.GetOr("Medium") }

  /** `get_difficulty_stats`: a question without a difficulty is counted as `'Medium'`. */
  function DifficultyStats(qs: seq<Question>): Counts<string> {
    Tally(MapSeq(DifficultyOrMedium, qs))
  }

  /** Shared part of the subject and year statistics. */
  lemma FieldStats(f: Question -> string, qs: seq<Question>)
    ensures var stats := Tally(MapSeq(f, qs));
            && DistinctKeys(stats)
            && (forall k :: CountOf(stats, k) == |Filter(Select(f, k), qs)|)
            && (forall k :: k in KeySet(stats) <==> exists i :: 0 <= i < |qs| && f(qs[i]) == k)
            && Positive(stats)
            && SumCounts(stats) == |qs|
  {
    var keys := MapSeq(f, qs);
    forall k ensures CountOf(Tally(keys), k) == |Filter(Select(f, k), qs)| {
      CountMapped(f, qs, k);
    }
    forall k ensures k in keys <==> exists i :: 0 <= i < |qs| && f(qs[i]) == k {
      if k in keys {
        var i :| 0 <= i < |keys| && keys[i] == k;
        assert f(qs[i]) == k;
      }
    }
  }

  /**
   * Every subject maps to the number of questions `filter_by_subject` returns
   * for it, the keys are exactly the subjects present, every count is
   * positive and the counts add up to the number of questions.
   */
  lemma SubjectStatsSpec(qs: seq<Question>)
    ensures DistinctKeys(SubjectStats(qs))
    ensures forall s :: CountOf(SubjectStats(qs), s) == |FilterBySubject(qs, s)|
    ensures forall s :: s in KeySet(SubjectStats(qs)) <==> exists i :: 0 <= i < |qs| && qs[i].subject == s
    ensures Positive(SubjectStats(qs))
    ensures SumCounts(SubjectStats(qs)) == |qs|
  {
    FieldStats(SubjectOf, qs);
  }

  /** The same for years and `filter_by_year`. */
  lemma YearStatsSpec(qs: seq<Question>)
    ensures DistinctKeys(YearStats(qs))
    ensures forall y :: CountOf(YearStats(qs), y) == |FilterByYear(qs, y)|
    ensures forall y :: y in KeySet(YearStats(qs)) <==> exists i :: 0 <= i < |qs| && qs[i].year == y
    ensures Positive(YearStats(qs))
    ensures SumCounts(YearStats(qs)) == |qs|
  {
    FieldStats(YearOf, qs);
  }

  function NoDifficulty(q: Question): bool { q.difficulty.None? }

  lemma {:induction false} MediumDefault(qs: seq<Question>, k: string)
    ensures |Filter(Select(DifficultyOrMedium, k), qs)|
            == |FilterByDifficulty(qs, k)| + (if k == "Medium" then |Filter(NoDifficulty, qs)| else 0)
    decreases |qs|
  {
    if qs != [] {
      MediumDefault(qs[1..], k);
    }
  }

  /**
   * The difficulty counts are those of `filter_by_difficulty`, except that
   * `'Medium'` also counts every question without a difficulty.
   */
  lemma DifficultyStatsSpec(qs: seq<Question>)
    ensures DistinctKeys(DifficultyStats(qs))
    ensures forall k :: CountOf(DifficultyStats(qs), k)
                        == |FilterByDifficulty(qs, k)| + (if k == "Medium" then |Filter(NoDifficulty, qs)| else 0)
    ensures Positive(DifficultyStats(qs))
    ensures SumCounts(DifficultyStats(qs)) == |qs|
  {
    forall k ensures CountOf(DifficultyStats(qs), k)
                     == |FilterByDifficulty(qs, k)| + (if k == "Medium" then |Filter(NoDifficulty, qs)| else 0) {
      CountMapped(DifficultyOrMedium, qs, k);
      MediumDefault(qs, k);
    }
  }

  // ---------------------------------------------------------------------------
  // Keyword search and sections
  // ---------------------------------------------------------------------------

  /** The test of `search_by_keyword` for an already lower-cased keyword. */
  function Matcher(kl: string): Question -> bool {
    (q: Question) => Contains(Lower(q.question), kl) || Contains(Lower(q.explanation.GetOr("")), kl)
  }

  /**
   * `search_by_keyword`: the questions whose lower-cased text or explanation
   * (a missing one read as `''`) contains the lower-cased keyword, in order.
   */
  method SearchByKeyword(qs: seq<Question>, keyword: string) returns (results: seq<Question>)
    ensures results == Filter(Matcher(Lower(keyword)), qs)
  {
    var keywordLower := Lower(keyword);
    results := [];
    var i := 0;
    while i < |qs|
      invariant 0 <= i <= |qs|
      invariant results == Filter(Matcher(keywordLower), qs[..i])
    {
      var q := qs[i];
      SearchStep(keywordLower, qs, i);
      if Contains(Lower(q.question), keywordLower) || Contains(Lower(q.explanation.GetOr("")), keywordLower) {
        results := results + [q];
      }
      i := i + 1;
    }
    assert qs[..|qs|] == qs;
  }

  lemma SearchStep(kl: string, qs: seq<Question>, i: nat)
    requires i < |qs|
    ensures var q := qs[i];
            Filter(Matcher(kl), qs[..i + 1])
            == Filter(Matcher(kl), qs[..i])
               + (if Contains(Lower(q.question), kl) || Contains(Lower(q.explanation.GetOr("")), kl) then [q] else [])
  {
    assert qs[..i + 1] == qs[..i] + [qs[i]];
    FilterSnoc(Matcher(kl), qs[..i], qs[i]);
  }

  /** A question is found exactly when the keyword occurs in its text or explanation, ignoring ASCII case. */
  lemma SearchSpec(qs: seq<Question>, keyword: string)
    ensures var r := Filter(Matcher(Lower(keyword)), qs);
            && IsSubseq(r, qs)
            && forall q :: multiset(r)[q]
                 == if Contains(Lower(q.question), Lower(keyword)) || Contains(Lower(q.explanation.GetOr("")), Lower(keyword))
                    then multiset(qs)[q] else 0
  {
    FilterSpec(Matcher(Lower(keyword)), qs);
  }

  /** An empty keyword matches every question. */
  lemma SearchEmptyKeyword(qs: seq<Question>)
    ensures Filter(Matcher(Lower("")), qs) == qs
  {
    forall i | 0 <= i < |qs| ensures Matcher(Lower(""))(qs[i]) {
      assert OccursAt(Lower(qs[i].question), "", 0);
    }
    FilterAll(Matcher(Lower("")), qs);
  }

  /** `get_sections_list`: the distinct `section` values, sorted. */
  method GetSectionsList(qs: seq<Question>) returns (r: seq<string>)
    ensures StrictlyAscending(r)
    ensures forall s :: s in r <==> exists i :: 0 <= i < |qs| && qs[i].section == Some(s)
  {
    var sections: set<string> := {};
    var i := 0;
    while i < |qs|
      invariant 0 <= i <= |qs|
      invariant forall s :: s in sections <==> exists j :: 0 <= j < i && qs[j].section == Some(s)
    {
      if qs[i].section.Some? {
        sections := sections + {qs[i].section.value};
      }
      i := i + 1;
    }
    r := SortedSeq(sections);
  }

  // ---------------------------------------------------------------------------
  // Custom tests
  // ---------------------------------------------------------------------------

  /** A `subject -> count` dict, in its iteration order. */
  type Distribution = seq<(string, int)>

  predicate DistinctSubjects(dist: Distribution) {
    forall i, j :: 0 <= i < j < |dist| ==> dist[i].0 != dist[j].0
  }

  function Prefixed(p: seq<Question>, r: Result<(seq<Question>, Stream), string>): Result<(seq<Question>, Stream), string> {
    match r
    case Ok((s, g)) => Ok((p + s, g))
    case Err(e) => Err(e)
  }

  /**
   * The loop of `create_custom_test` before the shuffle: for each subject in
   * turn, `random.sample` of `min(count, len(pool))` questions of that
   * subject; a negative count raises.
   */
  function QuotaDraws(qs: seq<Question>, dist: Distribution, rng: Stream): Result<(seq<Question>, Stream), string>
    decreases |dist|
  {
    if dist == [] then Ok(([], rng))
    else
      var pool := FilterBySubject(qs, dist[0].0);
      var k := Min(dist[0].1, |pool|);
      if k < 0 then Err(SampleError)
      else
        var s := Sample(pool, k, rng);
        Prefixed(s.0, QuotaDraws(qs, dist[1..], s.1))
  }

  /** The number of questions the quotas yield: `sum(min(count, len(pool)))`. */
  function QuotaSize(qs: seq<Question>, dist: Distribution): int
    decreases |dist|
  {
    if dist == [] then 0 else Min(dist[0].1, |FilterBySubject(qs, dist[0].0)|) + QuotaSize(qs, dist[1..])
  }

  /** No count of the distribution is negative. */
  predicate CountsNonNegative(dist: Distribution)
    decreases |dist|
  {
    dist == [] || (dist[0].1 >= 0 && CountsNonNegative(dist[1..]))
  }

  lemma {:induction false} CountsNonNegativeAt(dist: Distribution)
    ensures CountsNonNegative(dist) <==> forall i :: 0 <= i < |dist| ==> dist[i].1 >= 0
    decreases |dist|
  {
    if dist != [] {
      CountsNonNegativeAt(dist[1..]);
      assert forall i :: 1 <= i < |dist| ==> dist[i] == dist[1..][i - 1];
    }
  }

  /** The draws fail exactly when some count is negative, and otherwise have the total size of the quotas. */
  lemma {:induction false} QuotaDrawsSize(qs: seq<Question>, dist: Distribution, rng: Stream)
    ensures QuotaDraws(qs, dist, rng).Err? <==> !CountsNonNegative(dist)
    ensures QuotaDraws(qs, dist, rng).Ok? ==> |QuotaDraws(qs, dist, rng).value.0| == QuotaSize(qs, dist)
    decreases |dist|
  {
    if dist != [] {
      var pool := FilterBySubject(qs, dist[0].0);
      var k := Min(dist[0].1, |pool|);
      if k >= 0 {
        var s := Sample(pool, k, rng);
        QuotaDrawsSize(qs, dist[1..], s.1);
      }
    }
  }

  lemma AllOfSubject(picked: seq<Question>, pool: seq<Question>, subject: string)
    requires multiset(picked) <= multiset(pool)
    requires forall i :: 0 <= i < |pool| ==> pool[i].subject == subject
    ensures forall i :: 0 <= i < |picked| ==> picked[i].subject == subject
  {
    forall i | 0 <= i < |picked| ensures picked[i].subject == subject {
      assert picked[i] in multiset(picked);
      assert picked[i] in multiset(pool);
    }
  }

  lemma SplitBySubject(picked: seq<Question>, tail: seq<Question>, s0: string, s: string)
    requires forall i :: 0 <= i < |picked| ==> picked[i].subject == s0
    ensures Filter(Select(SubjectOf, s), picked + tail)
            == (if s == s0 then picked else []) + Filter(Select(SubjectOf, s), tail)
  {
    FilterConcat(Select(SubjectOf, s), picked, tail);
    if s == s0 {
      FilterAll(Select(SubjectOf, s), picked);
    } else {
      FilterNone(Select(SubjectOf, s), picked);
    }
  }

  /** The first quota's draw followed by the draws of the others. */
  lemma QuotaHead(qs: seq<Question>, dist: Distribution, rng: Stream)
    requires dist != [] && QuotaDraws(qs, dist, rng).Ok?
    ensures var pool := FilterBySubject(qs, dist[0].0);
            var k := Min(dist[0].1, |pool|);
            && k >= 0
            && var smp := Sample(pool, k, rng);
               && QuotaDraws(qs, dist[1..], smp.1).Ok?
               && QuotaDraws(qs, dist, rng).value.0 == smp.0 + QuotaDraws(qs, dist[1..], smp.1).value.0
  {
  }

  /** Every listed subject contributes `min(count, len(pool))` questions of its pool to `d`. */
  ghost predicate QuotasMet(qs: seq<Question>, dist: Distribution, d: seq<Question>) {
    forall i :: 0 <= i < |dist| ==>
      && |Filter(Select(SubjectOf, dist[i].0), d)| == Min(dist[i].1, |FilterBySubject(qs, dist[i].0)|)
      && multiset(Filter(Select(SubjectOf, dist[i].0), d)) <= multiset(FilterBySubject(qs, dist[i].0))
  }

  /** No subject outside the distribution occurs in `d`. */
  ghost predicate OnlyListed(dist: Distribution, d: seq<Question>) {
    forall s :: (forall i :: 0 <= i < |dist| ==> dist[i].0 != s) ==> Filter(Select(SubjectOf, s), d) == []
  }

  /** Facts about the tail of a distribution with distinct subjects. */
  lemma DistinctTail(dist: Distribution)
    requires dist != [] && DistinctSubjects(dist)
    ensures DistinctSubjects(dist[1..])
    ensures forall j :: 0 <= j < |dist[1..]| ==> dist[1..][j].0 != dist[0].0
  {
    assert forall j :: 0 <= j < |dist| - 1 ==> dist[1..][j] == dist[j + 1];
  }

  lemma OnlyListedStep(dist: Distribution, picked: seq<Question>, tail: seq<Question>)
    requires dist != []
    requires forall i :: 0 <= i < |picked| ==> picked[i].subject == dist[0].0
    requires OnlyListed(dist[1..], tail)
    ensures OnlyListed(dist, picked + tail)
  {
    forall s | forall i :: 0 <= i < |dist| ==> dist[i].0 != s
      ensures Filter(Select(SubjectOf, s), picked + tail) == []
    {
      SplitBySubject(picked, tail, dist[0].0, s);
      assert dist[0].0 != s;
      assert forall i :: 0 <= i < |dist[1..]| ==> dist[1..][i].0 != s by {
        assert forall i :: 0 <= i < |dist| - 1 ==> dist[1..][i] == dist[i + 1];
      }
    }
  }

  lemma QuotasStep(qs: seq<Question>, dist: Distribution, picked: seq<Question>, tail: seq<Question>)
    requires dist != [] && DistinctSubjects(dist)
    requires forall i :: 0 <= i < |picked| ==> picked[i].subject == dist[0].0
    requires |picked| == Min(dist[0].1, |FilterBySubject(qs, dist[0].0)|)
    requires multiset(picked) <= multiset(FilterBySubject(qs, dist[0].0))
    requires QuotasMet(qs, dist[1..], tail) && OnlyListed(dist[1..], tail)
    ensures QuotasMet(qs, dist, picked + tail)
  {
    var s0 := dist[0].0;
    forall i | 0 <= i < |dist|
      ensures |Filter(Select(SubjectOf, dist[i].0), picked + tail)| == Min(dist[i].1, |FilterBySubject(qs, dist[i].0)|)
      ensures multiset(Filter(Select(SubjectOf, dist[i].0), picked + tail)) <= multiset(FilterBySubject(qs, dist[i].0))
    {
      SplitBySubject(picked, tail, s0, dist[i].0);
      if i == 0 {
        DistinctTail(dist);
        assert Filter(Select(SubjectOf, s0), tail) == [];
        assert picked + [] == picked;
      } else {
        assert dist[i] == dist[1..][i - 1];
      }
    }
  }

  /**
   * With distinct subjects, the draws hold exactly `min(count, len(pool))`
   * questions of each listed subject, all from distinct positions of that
   * subject's pool, and none of any subject that is not listed.
   */
  lemma {:induction false} QuotaDrawsPerSubject(qs: seq<Question>, dist: Distribution, rng: Stream)
    requires DistinctSubjects(dist)
    requires QuotaDraws(qs, dist, rng).Ok?
    ensures QuotasMet(qs, dist, QuotaDraws(qs, dist, rng).value.0)
    ensures OnlyListed(dist, QuotaDraws(qs, dist, rng).value.0)
    decreases |dist|
  {
    if dist != [] {
      var s0 := dist[0].0;
      var pool := FilterBySubject(qs, s0);
      var k := Min(dist[0].1, |pool|);
      QuotaHead(qs, dist, rng);
      var smp := Sample(pool, k, rng);
      AllOfSubject(smp.0, pool, s0);
      DistinctTail(dist);
      QuotaDrawsPerSubject(qs, dist[1..], smp.1);
      var tail := QuotaDraws(qs, dist[1..], smp.1).value.0;
      QuotasStep(qs, dist, smp.0, tail);
      OnlyListedStep(dist, smp.0, tail);
    }
  }

  /** `create_custom_test`: the draws, then `random.shuffle`. */
  method CreateCustomTest(qs: seq<Question>, dist: Distribution, rng: Stream) returns (r: Result<seq<Question>, string>, rngOut: Stream)
    ensures r.Err? <==> QuotaDraws(qs, dist, rng).Err?
    ensures r.Ok? ==> var drawn := QuotaDraws(qs, dist, rng).value;
                      (r.value, rngOut) == Shuffle(drawn.0, drawn.1)
                      && multiset(r.value) == multiset(drawn.0)
  {
    var test: seq<Question> := [];
    var g := rng;
    var i := 0;
    assert dist[0..] == dist;
    PrefixedNil(QuotaDraws(qs, dist, rng));
    while i < |dist|
      invariant 0 <= i <= |dist|
      invariant QuotaDraws(qs, dist, rng) == Prefixed(test, QuotaDraws(qs, dist[i..], g))
    {
      var pool := FilterBySubject(qs, dist[i].0);
      var k := Min(dist[i].1, |pool|);
      QuotaUnfold(qs, dist, i, g);
      if k < 0 {
        return Err(SampleError), g;
      }
      var s := Sample(pool, k, g);
      ghost var later := QuotaDraws(qs, dist[i + 1..], s.1);
      assert QuotaDraws(qs, dist[i..], g) == Prefixed(s.0, later);
      PrefixedAppend(test, s.0, later);
      assert QuotaDraws(qs, dist, rng) == Prefixed(test + s.0, later);
      test := test + s.0;
      g := s.1;
      i := i + 1;
    }
    assert test + [] == test;
    var shuffled := Shuffle(test, g);
    r, rngOut := Ok(shuffled.0), shuffled.1;
  }

  lemma QuotaUnfold(qs: seq<Question>, dist: Distribution, i: nat, g: Stream)
    requires i < |dist|
    ensures var pool := FilterBySubject(qs, dist[i].0);
            var k := Min(dist[i].1, |pool|);
            QuotaDraws(qs, dist[i..], g)
            == if k < 0 then Err(SampleError)
               else Prefixed(Sample(pool, k, g).0, QuotaDraws(qs, dist[i + 1..], Sample(pool, k, g).1))
  {
    assert dist[i..][0] == dist[i] && dist[i..][1..] == dist[i + 1..];
  }

  lemma PrefixedNil(r: Result<(seq<Question>, Stream), string>)
    ensures Prefixed([], r) == r
  {
    if r.Ok? {
      assert [] + r.value.0 == r.value.0;
    }
  }

  lemma PrefixedAppend(a: seq<Question>, b: seq<Question>, r: Result<(seq<Question>, Stream), string>)
    ensures Prefixed(a, Prefixed(b, r)) == Prefixed(a + b, r)
  {
    if r.Ok? {
      assert a + (b + r.value.0) == (a + b) + r.value.0;
    }
  }

  // ---------------------------------------------------------------------------
  // Mock-test export
  // ---------------------------------------------------------------------------

  datatype MockTest = MockTest(
    testId: int,
    testName: string,
    totalQuestions: int,
    durationMinutes: int,
    passingMarks: int,
    instructions: string,
    questions: seq<Question>)

  /** The record `export_to_mock_test_format` writes, and the file it writes it to. */
  datatype Export = Export(filename: string, test: MockTest)

  const Instructions: string := "Based on AIBE previous year questions. Each question carries 1 mark."

  function TestFilename(testId: int): string {
    "mock_test_" + IntToString(testId) + ".json"
  }

  /**
   * `export_to_mock_test_format`: the record counts the questions it carries,
   * fixes 210 minutes and 40 passing marks, and names the file after the id.
   */
  function ExportToMockTestFormat(questions: seq<Question>, testName: string, testId: int := 2): (e: Export)
    ensures e.test.questions == questions && e.test.totalQuestions == |questions|
    ensures e.test.testId == testId && e.test.testName == testName
    ensures e.test.durationMinutes == 210 && e.test.passingMarks == 40
    ensures e.filename == TestFilename(testId)
  {
    Export(TestFilename(testId), MockTest(testId, testName, |questions|, 210, 40, Instructions, questions))
  }

  /** Different test ids never share a file name. */
  lemma TestFilenameInjective(a: int, b: int)
    requires TestFilename(a) == TestFilename(b)
    ensures a == b
  {
    var p, x, y := "mock_test_", IntToString(a), IntToString(b);
    assert (p + x + ".json")[|p|..|p| + |x|] == x;
    assert (p + y + ".json")[|p|..|p| + |y|] == y;
    assert |x| == |y|;
    IntToStringInjective(a, b);
  }

  function SumQuotas(dist: Distribution): int
    decreases |dist|
  {
    if dist == [] then 0 else dist[0].1 + SumQuotas(dist[1..])
  }

  /** Every drawn question is a question of the bank. */
  lemma {:induction false} QuotaDrawsFromBank(qs: seq<Question>, dist: Distribution, rng: Stream)
    requires QuotaDraws(qs, dist, rng).Ok?
    ensures forall q :: q in QuotaDraws(qs, dist, rng).value.0 ==> q in qs
    decreases |dist|
  {
    if dist != [] {
      var pool := FilterBySubject(qs, dist[0].0);
      var k := Min(dist[0].1, |pool|);
      QuotaHead(qs, dist, rng);
      var smp := Sample(pool, k, rng);
      QuotaDrawsFromBank(qs, dist[1..], smp.1);
      FilterSpec(Select(SubjectOf, dist[0].0), qs);
      forall q | q in smp.0 ensures q in qs {
        assert q in multiset(smp.0);
        assert q in multiset(pool);
      }
    }
  }
}
