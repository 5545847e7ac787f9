/**
 * `create_aibe_mock_test_2`: a balanced 100-question test from a fixed
 * subject distribution, topped up with random questions and exported as
 * mock test 2.
 */
module AibeMockTest {
  import opened Wrappers
  import opened Collections
  import opened Random
  import opened Text
  import opened QuestionBank

  const MockTest2Distribution: Distribution := [
    ("Constitutional Law", 10),
    ("Criminal Law - IPC", 8),
    ("Criminal Procedure Code", 8),
    ("Contract Law", 5),
    ("Civil Procedure Code", 5),
    ("Evidence Act", 6),
    ("Property Law", 4),
    ("Family Law", 4),
    ("Torts", 4),
    ("Company Law", 4),
    ("Labour Law", 4),
    ("Professional Ethics", 4),
    ("Arbitration", 3),
    ("Jurisprudence", 2)
  ]

  const TotalNeeded: int := 100

  /** The fixed distribution asks for 71 questions... */
  lemma MockTest2Total()
    ensures SumQuotas(MockTest2Distribution) == 71
  {
  }

  /** ...and has no negative count. */
  lemma MockTest2NonNegative()
    ensures CountsNonNegative(MockTest2Distribution)
  {
  }

  lemma MockTest2Filename()
    ensures TestFilename(2) == "mock_test_2.json"
  {
    assert IntToString(2) == "2";
  }

  const MockTest2Name: string := "AIBE Mock Test 2 - Previous Years Edition"

  /** `s[:n]` for `0 <= n`. */
  function TakePrefix(s: seq<Question>, n: nat): (r: seq<Question>)
    ensures r == s[..Min(n, |s|)]
    ensures |r| == Min(n, |s|)
    ensures forall q :: q in r ==> q in s
  {
    if |s| <= n then s else s[..n]
  }

  /**
   * The questions `create_aibe_mock_test_2` collects, and the stream after
   * the draws: the custom test (the quota draws, shuffled), then
   * `random.sample` of `min(remaining, len(qs))` questions of the whole bank
   * when `remaining = TotalNeeded - sum(quotas)` is positive. A failing quota
   * draw fails the whole collection.
   */
  function Collected(qs: seq<Question>, dist: Distribution, rng: Stream): (r: Result<(seq<Question>, Stream), string>)
    ensures r.Err? <==> QuotaDraws(qs, dist, rng).Err?
    ensures r.Ok? ==> multiset(QuotaDraws(qs, dist, rng).value.0) <= multiset(r.value.0)
    ensures r.Ok? ==> forall q :: q in r.value.0 ==> q in qs
    ensures r.Ok? ==> |r.value.0| == |QuotaDraws(qs, dist, rng).value.0| + Fill(qs, dist)
  {
    match QuotaDraws(qs, dist, rng)
    case Err(m) => Err(m)
    case Ok(drawn) =>
      QuotaDrawsFromBank(qs, dist, rng);
      var custom := Shuffle(drawn.0, drawn.1);
      var remaining := TotalNeeded - SumQuotas(dist);
      if remaining > 0 then
        var extra := Sample(qs, Min(remaining, |qs|), custom.1);
        AppendFacts(drawn.0, custom.0, extra.0, qs);
        Ok((custom.0 + extra.0, extra.1))
      else
        AppendFacts(drawn.0, custom.0, [], qs);
        assert custom.0 + [] == custom.0;
        Ok(custom)
  }

  /** How many questions the fill adds: `min(remaining, len(qs))`, or none when nothing remains. */
  function Fill(qs: seq<Question>, dist: Distribution): (n: nat)
    ensures n <= |qs|
    ensures n == 0 <==> TotalNeeded <= SumQuotas(dist) || qs == []
  {
    if TotalNeeded - SumQuotas(dist) > 0 then Min(TotalNeeded - SumQuotas(dist), |qs|) else 0
  }

  /**
   * For a distribution without a negative count the collection succeeds,
   * with the quota draws and the fill.
   */
  lemma CollectedSpec(qs: seq<Question>, dist: Distribution, rng: Stream)
    requires CountsNonNegative(dist)
    ensures var c := Collected(qs, dist, rng);
            c.Ok? && |c.value.0| == QuotaSize(qs, dist) + Fill(qs, dist)
  {
    QuotaDrawsSize(qs, dist, rng);
  }

  /** Once the quota draws succeed, the collection is the shuffled draws followed by the fill. */
  lemma CollectedValue(qs: seq<Question>, dist: Distribution, rng: Stream)
    requires QuotaDraws(qs, dist, rng).Ok?
    ensures var drawn := QuotaDraws(qs, dist, rng).value;
            var custom := Shuffle(drawn.0, drawn.1);
            Collected(qs, dist, rng)
            == if TotalNeeded - SumQuotas(dist) > 0
               then Ok((custom.0 + Sample(qs, Fill(qs, dist), custom.1).0, Sample(qs, Fill(qs, dist), custom.1).1))
               else Ok(custom)
  {
  }

  /** A permutation of bank questions followed by a sample of the bank. */
  lemma AppendFacts(drawn: seq<Question>, custom: seq<Question>, extra: seq<Question>, qs: seq<Question>)
    requires multiset(custom) == multiset(drawn) && multiset(extra) <= multiset(qs)
    requires forall q :: q in drawn ==> q in qs
    ensures |custom + extra| == |drawn| + |extra|
    ensures multiset(drawn) <= multiset(custom + extra)
    ensures forall q :: q in custom + extra ==> q in qs
  {
    assert |custom| == |multiset(custom)| == |multiset(drawn)| == |drawn|;
    assert forall q :: q in custom ==> q in multiset(drawn);
    SubMultisetMembers(extra, qs);
    assert multiset(custom + extra) == multiset(custom) + multiset(extra);
  }

  lemma SubMultisetMembers(a: seq<Question>, b: seq<Question>)
    requires multiset(a) <= multiset(b)
    ensures forall q :: q in a ==> q in b
  {
    assert forall q :: q in a ==> q in multiset(a);
  }

  /**
   * The collecting part of `create_aibe_mock_test_2`, for a distribution
   * without a negative count: `create_custom_test`, then `extend` with
   * `get_random_questions(remaining)` when questions are still missing.
   */
  method QuotaThenFill(qs: seq<Question>, dist: Distribution, rng: Stream)
    returns (test: seq<Question>, rngOut: Stream)
    requires CountsNonNegative(dist)
    ensures Collected(qs, dist, rng) == Ok((test, rngOut))
  {
    var remaining := TotalNeeded - SumQuotas(dist);
    var custom, g := CreateCustomTest(qs, dist, rng);
    QuotaDrawsSize(qs, dist, rng);
    CollectedValue(qs, dist, rng);
    test := custom.value;
    if remaining > 0 {
      var extra := GetRandomQuestions(qs, g, remaining);
      test := test + extra.value.0;
      g := extra.value.1;
    }
    rngOut := g;
  }

  /** `export_to_mock_test_format(test[:100], name, test_id)`. */
  function ExportFirstHundred(test: seq<Question>, name: string, testId: int): (e: Export)
    ensures e.filename == TestFilename(testId)
    ensures e.test.testId == testId && e.test.testName == name
    ensures e.test.questions == test[..Min(TotalNeeded, |test|)]
    ensures e.test.totalQuestions == |e.test.questions| == Min(TotalNeeded, |test|)
    ensures forall q :: q in e.test.questions ==> q in test
  {
    ExportToMockTestFormat(TakePrefix(test, TotalNeeded), name, testId)
  }

  /**
   * `create_aibe_mock_test_2`: the quota draws of the fixed distribution,
   * shuffled, then `100 - 71 = 29` more random questions, cut to the first 100
   * and exported as test 2.
   */
  method CreateAibeMockTest2(qs: seq<Question>, rng: Stream) returns (e: Export, rngOut: Stream)
    ensures Collected(qs, MockTest2Distribution, rng).Ok?
    ensures var c := Collected(qs, MockTest2Distribution, rng).value;
            e == ExportFirstHundred(c.0, MockTest2Name, 2) && rngOut == c.1
    ensures e.filename == "mock_test_2.json"
    ensures e.test.testId == 2 && e.test.testName == MockTest2Name
    ensures e.test.totalQuestions == |e.test.questions| == Min(TotalNeeded, QuotaSize(qs, MockTest2Distribution) + Min(29, |qs|))
    ensures forall q :: q in e.test.questions ==> q in qs
  {
    MockTest2Total();
    MockTest2NonNegative();
    var test;
    test, rngOut := QuotaThenFill(qs, MockTest2Distribution, rng);
    CollectedSpec(qs, MockTest2Distribution, rng);
    assert |test| == QuotaSize(qs, MockTest2Distribution) + Min(29, |qs|);
    e := ExportFirstHundred(test, MockTest2Name, 2);
    MockTest2Filename();
  }
}
