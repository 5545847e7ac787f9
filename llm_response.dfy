/**
 * The string pipeline both `_parse_flashcards` variants run on an LLM reply
 * before decoding it: strip it, cut out the first fenced block, then take the
 * greedy `[`...`]` span that `re.search(r'\[[\s\S]*\]', content)` finds.
 */
module LlmResponse {
  import opened Wrappers
  import opened Text

  const Fence: string := "```"
  const JsonFence: string := "```json"

  /** `s.split(p)[0]`: `s` up to the first `p`, or all of `s`. */
  function Before(s: string, p: string): (r: string)
    ensures |r| <= |s| && r == s[..|r|]
    ensures |p| > 0 ==> !Contains(r, p)
    ensures |r| < |s| ==> OccursAt(s, p, |r|)
    ensures |p| > 0 && Contains(s, p) ==> |r| < |s|
  {
    match IndexOf(s, p)
    case None => s
    case Some(i) =>
      assert |p| > 0 ==> i < |s| && !Contains(s[..i], p) by {
        if |p| > 0 {
          NoEarlierOccurrence(s, p, i);
        }
      }
      s[..i]
  }

  /** Where the text after the first `opener` starts. */
  function AfterFirst(content: string, opener: string): (start: nat)
    requires Contains(content, opener)
    ensures start <= |content|
  {
    IndexOf(content, opener).value + |opener|
  }

  /** `content.split(opener)[1].split('```')[0]`, for an `opener` that occurs in `content`. */
  function FenceBody(content: string, opener: string): string
    requires |opener| > 0 && Contains(content, opener)
  {
    SplitOn(SplitOn(content, opener)[1], Fence)[0]
  }

  /**
   * The fenced body is the text after the first `opener`, cut at the next
   * `opener`, then cut at the first fence; it holds no fence.
   */
  lemma FenceBodySpec(content: string, opener: string)
    requires |opener| > 0 && Contains(content, opener)
    ensures FenceBody(content, opener) == Before(Before(content[AfterFirst(content, opener)..], opener), Fence)
    ensures !Contains(FenceBody(content, opener), Fence)
  {
    SplitSecond(content, opener);
    var middle := SplitOn(content, opener)[1];
    SplitFirst(content[AfterFirst(content, opener)..], opener);
    SplitFirst(middle, Fence);
  }

  /** When `opener` occurs only once, the body is the text from it up to the next fence, or to the end. */
  lemma FenceBodyToNextFence(content: string, opener: string)
    requires |opener| > 0 && Contains(content, opener)
    requires !Contains(content[AfterFirst(content, opener)..], opener)
    ensures FenceBody(content, opener) == Before(content[AfterFirst(content, opener)..], Fence)
  {
    FenceBodySpec(content, opener);
  }

  /** With the plain fence as opener, the body is the text between the first and the second fence, or to the end. */
  lemma PlainFenceBody(content: string)
    requires Contains(content, Fence)
    ensures FenceBody(content, Fence) == Before(content[AfterFirst(content, Fence)..], Fence)
  {
    FenceBodySpec(content, Fence);
    var b := Before(content[AfterFirst(content, Fence)..], Fence);
    assert Before(b, Fence) == b;
  }

  /** Every occurrence of "```json" is an occurrence of "```". */
  lemma JsonFenceIsFence(content: string)
    requires Contains(content, JsonFence)
    ensures Contains(content, Fence)
  {
    var i := IndexOf(content, JsonFence).value;
    assert content[i..i + 3] == content[i..i + 7][..3];
    assert OccursAt(content, Fence, i);
  }

  /**
   * The fence handling: the body of the first "```json" block if there is one,
   * else that of the first plain fence, else the text unchanged. The result
   * never holds a fence when the text held one.
   */
  function StripFences(content: string): (r: string)
    ensures !Contains(content, Fence) ==> r == content
    ensures Contains(content, Fence) ==> !Contains(r, Fence)
  {
    if Contains(content, JsonFence) then
      JsonFenceIsFence(content);
      FenceBodySpec(content, JsonFence);
      FenceBody(content, JsonFence)
    else if Contains(content, Fence) then
      FenceBodySpec(content, Fence);
      FenceBody(content, Fence)
    else
      content
  }

  /** Which block `StripFences` keeps: the "```json" block first, else the first plain one. */
  lemma StripFencesCases(content: string)
    ensures Contains(content, JsonFence) ==> StripFences(content) == FenceBody(content, JsonFence)
    ensures !Contains(content, JsonFence) && Contains(content, Fence) ==>
              StripFences(content) == Before(content[AfterFirst(content, Fence)..], Fence)
  {
    if !Contains(content, JsonFence) && Contains(content, Fence) {
      PlainFenceBody(content);
    }
  }

  /** Some `[` comes before some `]`. */
  predicate HasBracketPair(s: string) {
    exists i, j :: 0 <= i < j < |s| && s[i] == '[' && s[j] == ']'
  }

  /** `s[i..j + 1]` is the match of the greedy pattern: `i` is the first `[` and `j` the last `]`. */
  predicate GreedyMatch(s: string, i: int, j: int) {
    0 <= i < j < |s| && s[i] == '[' && s[j] == ']'
    && (forall k :: 0 <= k < i ==> s[k] != '[')
    && (forall k :: j < k < |s| ==> s[k] != ']')
  }

  /**
   * `re.search(r'\[[\s\S]*\]', s)`: the leftmost `[` with a `]` somewhere
   * after it, extended to the last `]`; the text unchanged when no `[`
   * precedes a `]`.
   */
  function BracketSpan(s: string): (r: string)
    ensures HasBracketPair(s) ==> exists i, j :: GreedyMatch(s, i, j) && r == s[i..j + 1]
    ensures !HasBracketPair(s) ==> r == s
  {
    match (FirstIndexOf(s, '['), LastIndexOf(s, ']'))
    case (Some(i), Some(j)) =>
      if i < j then
        assert GreedyMatch(s, i, j);
        s[i..j + 1]
      else
        assert !HasBracketPair(s);
        s
    case (_, _) => s
  }

  /** Taking the span again changes nothing. */
  lemma BracketSpanIdempotent(s: string)
    ensures BracketSpan(BracketSpan(s)) == BracketSpan(s)
  {
    var r := BracketSpan(s);
    if HasBracketPair(s) {
      var i, j :| GreedyMatch(s, i, j) && r == s[i..j + 1];
      assert r[0] == '[' && r[|r| - 1] == ']';
      assert GreedyMatch(r, 0, |r| - 1);
      var r2 := BracketSpan(r);
      var i2, j2 :| GreedyMatch(r, i2, j2) && r2 == r[i2..j2 + 1];
      assert i2 == 0 && j2 == |r| - 1;
    }
  }

  // ---------------------------------------------------------------------------
  // A reply made of one "```json" block
  // ---------------------------------------------------------------------------

  predicate NoBacktick(s: string) {
    forall i :: 0 <= i < |s| ==> s[i] != '`'
  }

  /** A position where `p` occurs, with no occurrence before it, is what `find` returns. */
  lemma FirstOccurrence(s: string, p: string, k: nat)
    requires OccursAt(s, p, k) && forall j :: 0 <= j < k ==> !OccursAt(s, p, j)
    ensures IndexOf(s, p) == Some(k)
  {
  }

  /** Between two texts without backticks, the closing fence is the only place a fence occurs. */
  lemma FenceOnlyAt(body: string, post: string)
    requires NoBacktick(body) && NoBacktick(post)
    ensures forall k :: OccursAt(body + Fence + post, Fence, k) ==> k == |body|
  {
    var x := body + Fence + post;
    forall k | OccursAt(x, Fence, k) ensures k == |body| {
      assert x[k] == x[k..k + 3][0] == '`';
      assert x[k + 2] == x[k..k + 3][2] == '`';
    }
  }

  /** An occurrence of "```json" is one of "```". */
  lemma JsonFenceAt(x: string, k: nat)
    requires OccursAt(x, JsonFence, k)
    ensures OccursAt(x, Fence, k)
  {
    assert x[k..k + 3] == x[k..k + 7][..3];
  }

  /** A text without backticks holds no fence. */
  lemma BeforeNoFence(body: string)
    requires NoBacktick(body)
    ensures Before(body, Fence) == body
  {
    forall k | 0 <= k < |body| ensures !OccursAt(body, Fence, k) {
      assert k + 3 <= |body| ==> body[k..k + 3][0] == body[k];
    }
  }

  /** After the opener, the body ends at the closing fence, whatever follows it. */
  lemma BeforeBlockEnd(body: string, post: string)
    requires NoBacktick(body) && NoBacktick(post)
    ensures Before(Before(body + Fence + post, JsonFence), Fence) == body
  {
    var x := body + Fence + post;
    FenceOnlyAt(body, post);
    BeforeNoFence(body);
    assert x[..|body|] == body;
    var r1 := Before(x, JsonFence);
    if |r1| < |x| {
      JsonFenceAt(x, |r1|);
    } else {
      assert r1 == x;
      assert OccursAt(x, Fence, |body|) by {
        assert x[|body|..|body| + 3] == Fence;
      }
      assert Contains(x, Fence);
    }
  }

  /**
   * For a text `pre + "```json" + body + "```" + post` with no other
   * backtick, the fence handling keeps exactly `body`.
   */
  lemma JsonBlockBody(pre: string, body: string, post: string)
    requires NoBacktick(pre) && NoBacktick(body) && NoBacktick(post)
    ensures StripFences(pre + JsonFence + body + Fence + post) == body
  {
    var c := pre + JsonFence + body + Fence + post;
    assert OccursAt(c, JsonFence, |pre|) by {
      assert c[|pre|..|pre| + 7] == JsonFence;
    }
    forall j | 0 <= j < |pre| ensures !OccursAt(c, JsonFence, j) {
      assert c[j] == pre[j];
      assert j + 7 <= |c| ==> c[j..j + 7][0] == c[j];
    }
    FirstOccurrence(c, JsonFence, |pre|);
    assert AfterFirst(c, JsonFence) == |pre| + 7;
    assert c[|pre| + 7..] == body + Fence + post;
    StripFencesCases(c);
    FenceBodySpec(c, JsonFence);
    BeforeBlockEnd(body, post);
  }

  /**
   * The span of a text with its first `[` before `mid` and its last `]`
   * after it is `[`, `mid`, `]`.
   */
  lemma BracketSpanOf(lead: string, mid: string, trail: string)
    requires forall k :: 0 <= k < |lead| ==> lead[k] != '['
    requires forall k :: 0 <= k < |trail| ==> trail[k] != ']'
    ensures BracketSpan(lead + "[" + mid + "]" + trail) == "[" + mid + "]"
  {
    var s := lead + "[" + mid + "]" + trail;
    var i, j := |lead|, |lead| + 1 + |mid|;
    assert s[i] == '[' && s[j] == ']';
    forall k | 0 <= k < i ensures s[k] != '[' {
      assert s[k] == lead[k];
    }
    forall k | j < k < |s| ensures s[k] != ']' {
      assert s[k] == trail[k - j - 1];
    }
    assert FirstIndexOf(s, '[') == Some(i);
    assert LastIndexOf(s, ']') == Some(j);
    assert s[i..j + 1] == "[" + mid + "]";
  }

  /** The text `_parse_flashcards` hands to the JSON decoder. */
  function Candidate(response: string): string {
    BracketSpan(StripFences(Strip(response)))
  }

  /** A reply whose stripped text is one "```json" block hands the decoder the bracket span of the block's body. */
  lemma JsonBlockCandidate(response: string, pre: string, body: string, post: string)
    requires Strip(response) == pre + JsonFence + body + Fence + post
    requires NoBacktick(pre) && NoBacktick(body) && NoBacktick(post)
    ensures Candidate(response) == BracketSpan(body)
  {
    JsonBlockBody(pre, body, post);
  }
}
