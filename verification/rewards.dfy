/**
 * The two reward functions the trainer calls on each batch of completions:
 * format_reward_func (1 for the tagged format, else 0) and
 * correctness_reward_func (2 when the extracted answer equals the expected
 * one, else 0). Rewards are the integers 0, 1 and 2, which Python's
 * reward functions return as floats.
 */
module Rewards {
  import opened Wrappers
  import opened PyStr
  import opened Regex
  import opened Format
  import opened Extract
  import opened Dataset

  /** The exception the reward functions can raise: indexing an empty list. */
  datatype PyError = IndexError

  /** Every completion holds at least one message. */
  predicate AllNonEmpty(completions: seq<seq<Message>>) {
    forall i :: 0 <= i < |completions| ==> |completions[i]| > 0
  }

  /** `[completion[0]["content"] for completion in completions]`, which raises
      IndexError on the first completion without messages. */
  function Responses(completions: seq<seq<Message>>): (r: Result<seq<string>, PyError>)
    ensures r.Success? <==> AllNonEmpty(completions)
    ensures r.Success? ==> |r.value| == |completions|
    ensures r.Success? ==> forall i :: 0 <= i < |completions| ==> r.value[i] == completions[i][0].content
  {
    if |completions| == 0 then Success([])
    else if |completions[0]| == 0 then Failure(IndexError)
    else match Responses(completions[1..])
      case Failure(e) => Failure(e)
      case Success(rest) => Success([completions[0][0].content] + rest)
  }

  /** The reward for one response: 1 when `re.match(pattern, r)` succeeds. */
  function FormatScore(response: string): (r: int)
    ensures r == 0 || r == 1
    ensures r == 1 <==> Match(Pattern, response)
  {
    PatternIffParse(response);
    if Parse(response).Some? then 1 else 0
  }

  /** format_reward_func: one 0/1 reward per completion, read from the first
      message's content. */
  function FormatReward(completions: seq<seq<Message>>): (r: Result<seq<int>, PyError>)
    ensures r.Success? <==> AllNonEmpty(completions)
    ensures r.Success? ==> |r.value| == |completions|
    ensures r.Success? ==> forall i :: 0 <= i < |completions| ==>
      (r.value[i] == 0 || r.value[i] == 1) &&
      (r.value[i] == 1 <==> Match(Pattern, completions[i][0].content))
  {
    match Responses(completions)
    case Failure(e) => Failure(e)
    case Success(rs) => Success(seq(|rs|, i requires 0 <= i < |rs| => FormatScore(rs[i])))
  }

  /** The reward for one extracted response against one expected answer:
      Python's `r == a`, where a `None` answer equals no string. */
  function CorrectnessScore(extracted: string, answer: Option<string>): (r: int)
    ensures r == 0 || r == 2
    ensures r == 2 <==> answer.Some? && answer.value == extracted
  {
    if answer == Some(extracted) then 2 else 0
  }

  function Min(a: int, b: int): int {
    if a <= b then a else b
  }

  /** correctness_reward_func: `zip` pairs the extracted responses with the
      expected answers, so the list is as long as the shorter one. The
      diagnostic print before the return reads `prompts[0][-1]`, `answer[0]`
      and `responses[0]`, so an empty one of these raises IndexError. */
  function CorrectnessReward(prompts: seq<seq<Message>>, completions: seq<seq<Message>>,
                             answer: seq<Option<string>>): (r: Result<seq<int>, PyError>)
    ensures r.Success? <==>
      AllNonEmpty(completions) && |completions| > 0 && |answer| > 0 && |prompts| > 0 && |prompts[0]| > 0
    ensures r.Success? ==> |r.value| == Min(|completions|, |answer|)
    ensures r.Success? ==> forall i :: 0 <= i < |r.value| ==>
      (r.value[i] == 0 || r.value[i] == 2) &&
      (r.value[i] == 2 <==> answer[i] == Some(ExtractXmlAnswer(completions[i][0].content)))
    ensures r.Success? ==> forall i :: 0 <= i < |r.value| ==>
      (answer[i].None? ==> r.value[i] == 0) &&
      (answer[i].Some? && !Trimmed(answer[i].value) ==> r.value[i] == 0)
  {
    match Responses(completions)
    case Failure(e) => Failure(e)
    case Success(rs) =>
      var extracted := seq(|rs|, i requires 0 <= i < |rs| => ExtractXmlAnswer(rs[i]));
      if |prompts| == 0 || |prompts[0]| == 0 || |answer| == 0 || |rs| == 0 then Failure(IndexError)
      else
        Success(seq(Min(|extracted|, |answer|), i requires 0 <= i < Min(|extracted|, |answer|) =>
          CorrectnessScore(extracted[i], answer[i])))
  }

  /** The `Y`/`N` string the diagnostic print shows, one letter per pair. */
  function Verdicts(extracted: seq<string>, answer: seq<Option<string>>): (v: string)
    ensures |v| == Min(|extracted|, |answer|)
    ensures forall i :: 0 <= i < |v| ==>
      (v[i] == 'Y' || v[i] == 'N') && (v[i] == 'Y' <==> CorrectnessScore(extracted[i], answer[i]) == 2)
  {
    seq(Min(|extracted|, |answer|), i requires 0 <= i < Min(|extracted|, |answer|) =>
      if answer[i] == Some(extracted[i]) then 'Y' else 'N')
  }

  /** The printed verdicts mirror the rewards: `Y` exactly where the reward is 2. */
  lemma {:induction false} VerdictsMirrorRewards(prompts: seq<seq<Message>>, completions: seq<seq<Message>>,
                              answer: seq<Option<string>>)
    requires CorrectnessReward(prompts, completions, answer).Success?
    ensures var rewards := CorrectnessReward(prompts, completions, answer).value;
      var extracted := seq(|completions|, i requires 0 <= i < |completions| && |completions[i]| > 0 =>
        ExtractXmlAnswer(completions[i][0].content));
      var v := Verdicts(extracted, answer);
      |v| == |rewards| && forall i :: 0 <= i < |v| ==> (v[i] == 'Y' <==> rewards[i] == 2)
  {
  }

  /** A completion in the rewarded format whose answer holds no `<answer>`
      earns the format reward, and earns the correctness reward exactly when
      its stripped answer field is the expected answer. */
  lemma {:induction false} FormattedCompletionScores(c: Tagged, expected: Option<string>)
    requires WellFormed(c) && NotIn(OpenAnswer, c.answer)
    ensures FormatScore(Render(c)) == 1
    ensures CorrectnessScore(ExtractXmlAnswer(Render(c)), expected) == 2 <==> expected == Some(Strip(c.answer))
  {
    ParseRender(c);
    PatternIffParse(Render(c));
    XmlAnswerOfFormatted(c);
  }

  /** Both rewards at once: a dataset answer that fits on one line and holds
      neither answer tag is reached by the completion that states it. */
  lemma {:induction false} FullMarksReachable(solution: string, x: string)
    requires ExtractHashAnswer(solution) == Some(x)
    requires NoNewline(x) && NotIn(OpenAnswer, x) && NotIn(CloseAnswer, x)
    ensures FormatScore(Render(Tagged("", x, false))) == 1
    ensures CorrectnessScore(ExtractXmlAnswer(Render(Tagged("", x, false))), ExtractHashAnswer(solution)) == 2
  {
    var c := Tagged("", x, false);
    assert NotIn(CloseReasoning, "") && NoNewline("");
    StripOfTrimmed(x);
    FormattedCompletionScores(c, Some(x));
  }

  /** A well-formatted answer of "4.0" against the expected "4" earns the
      format reward but no correctness reward: the comparison is on strings. */
  lemma {:induction false} FormattingOfNumbersMatters()
    ensures FormatScore(Render(Tagged("", "4.0", false))) == 1
    ensures CorrectnessScore(ExtractXmlAnswer(Render(Tagged("", "4.0", false))), Some("4")) == 0
  {
    var c := Tagged("", "4.0", false);
    assert NotIn(CloseReasoning, "") && NoNewline("4.0");
    NotInByHead(CloseAnswer, "4.0");
    NotInByHead(OpenAnswer, "4.0");
    StripOfTrimmed("4.0");
    FormattedCompletionScores(c, Some("4"));
  }

  /** Every well-formed completion earns the format reward. */
  lemma {:induction false} RenderedScoresOne(c: Tagged)
    requires WellFormed(c)
    ensures FormatScore(Render(c)) == 1
  {
    ParseRender(c);
    PatternIffParse(Render(c));
  }

  /** An `<answer>` inside the answer field still passes the format check, but
      the extracted answer is then what follows that inner tag: the
      completion is graded on `y`, not on its answer field `x<answer>y`. */
  lemma {:induction false} InnerAnswerTagRegraded()
    ensures WellFormed(Tagged("", "x<answer>y", false))
    ensures FormatScore(Render(Tagged("", "x<answer>y", false))) == 1
    ensures ExtractXmlAnswer(Render(Tagged("", "x<answer>y", false))) == "y"
    ensures CorrectnessScore(ExtractXmlAnswer(Render(Tagged("", "x<answer>y", false))), Some("x<answer>y")) == 0
  {
    var c := Tagged("", "x<answer>y", false);
    InnerAnswerWellFormed(c);
    RenderedScoresOne(c);
    InnerAnswerExtracted(c);
  }

  /** The answer field `x<answer>y` is one line without `</answer>`. */
  lemma {:induction false} InnerAnswerWellFormed(c: Tagged)
    requires c == Tagged("", "x<answer>y", false)
    ensures WellFormed(c)
  {
    forall k | 0 <= k <= |c.answer|
      ensures !OccursAt(c.answer, CloseAnswer, k)
    {
      if k + |CloseAnswer| <= |c.answer| {
        assert c.answer[k..k + |CloseAnswer|][1] == c.answer[k + 1];
      }
    }
    assert NotIn(CloseReasoning, "") && NoNewline(c.answer);
  }

  /** The last `<answer>` in the rendering is the one inside the field. */
  lemma {:induction false} InnerAnswerExtracted(c: Tagged)
    requires c == Tagged("", "x<answer>y", false)
    ensures ExtractXmlAnswer(Render(c)) == "y"
  {
    var prefix := OpenReasoning + Between + "x";
    assert Render(c) == prefix + OpenAnswer + "y" + CloseAnswer + Tail(false);
    NotInByHead(OpenAnswer, "y");
    NotInByHead(CloseAnswer, "y");
    CloseAnswerTail(false);
    XmlAnswerOfTagged(prefix, "y", Tail(false));
    StripOfTrimmed("y");
  }

  /** A completion whose reasoning spans several lines earns no format
      reward, whatever its fields hold. */
  lemma {:induction false} MultiLineReasoningScoresZero(c: Tagged)
    requires '\n' in c.reasoning
    ensures FormatScore(Render(c)) == 0
  {
    MultiLineNeverMatches(c);
  }

  /** The format reward is 1 exactly on renderings of well-formed completions. */
  lemma {:induction false} FormatScoreIffRendered(response: string)
    ensures FormatScore(response) == 1 <==> exists c :: WellFormed(c) && Render(c) == response
  {
    PatternIffRendered(response);
  }
}
