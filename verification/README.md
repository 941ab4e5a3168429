# Reward scoring for GRPO fine-tuning, in Dafny

`timecomp.py` fine-tunes a language model on grade-school arithmetic with
GRPO. The trainer and model loading are external library code; the timing
instrumentation around them is left out. The part modelled here is the string
logic. It turns each dataset record into a chat
prompt and an expected answer. It then scores every sampled completion with two
rewards:

- a **format reward**: 1 when the completion is
  `<reasoning>R</reasoning>\n<answer>A</answer>`, optionally followed by one
  newline, where R and A are each a single line, R holds no `</reasoning>` and
  A holds no `</answer>`; 0 otherwise. Reasoning spread over several lines
  therefore scores 0.
- a **correctness reward**: 2 when the extracted answer equals the expected
  answer, and 0 otherwise. The extracted answer is whatever follows the last
  `<answer>` (the whole text when there is none), cut at the first
  `</answer>` after it (kept to the end when there is none), then stripped.
  So an untagged completion `4` earns 2 against the expected answer `4`.
  A completion whose answer field itself holds `<answer>` still earns the
  format reward, but it is graded on the text after that inner tag, not on
  its answer field.

This project models that logic as pure Dafny functions over `seq<char>` and
proves what the scores mean.

The modules follow the program's layers:

- `Wrappers` holds `Option` and `Result`.
- `PyStr` models `str.split` with a non-empty separator and the argument-less
  `str.strip` over the whitespace set of `str.isspace`, using `str.find` and
  `sep.join` to describe `split`. It also proves the split/join round trips and the facts
  about split pieces that the extractors rely on.
- `Regex` is the fragment of `re` the format check uses: literals, `^`, `$`
  without MULTILINE, and the star of the tempered dot `(?!stop).` without
  DOTALL. Its semantics is a relation on spans. Because `re` backtracks, a
  match exists exactly when some span starting at 0 is related.
- `Format` holds the format pattern, a deterministic recogniser `Parse` with
  its inverse `Render`, and the proof that `Parse` accepts exactly what the
  pattern matches.
- `Extract` holds `extract_xml_answer` and `extract_hash_answer`.
- `Dataset` holds `process_batch`.
- `Rewards` holds `format_reward_func` and `correctness_reward_func`. The
  rewards are the integers 0, 1 and 2.

A raised exception is modelled as `Failure(IndexError)`: indexing the first
message of a completion that has none, or the indexing done by the diagnostic
print in the correctness reward.

## Model

| member | source | states |
|---|---|---|
| PyStr.Split | timecomp.py:50-53 | `split` always returns at least one piece, which is why the `[-1]` and `[0]` indexing can never raise |
| PyStr.JoinSplit | timecomp.py:50 | joining the pieces of a split with the separator gives the original text back |
| PyStr.SplitPiecesFree | timecomp.py:50 | no piece of a split contains the separator |
| PyStr.SplitSingle | timecomp.py:27-29 | a split has exactly one piece iff the separator does not occur in the text |
| PyStr.SplitJoin | timecomp.py:50 | splitting a join of separator-free pieces gives the pieces back, for a separator whose first character does not occur again in it (both XML tags) |
| PyStr.SplitAppend | timecomp.py:50 | splitting `p + sep + q` is splitting `p`, then splitting `q`, for a separator whose first character does not occur again in it (both XML tags) |
| PyStr.Strip | timecomp.py:27 | the stripped text starts and ends with a non-whitespace character and is no longer than the input |
| PyStr.StripPadded | timecomp.py:36 | the input is the stripped text with only whitespace added on either side |
| PyStr.StripUnique | timecomp.py:50 | if the text is `r` surrounded only by whitespace, and `r` neither starts nor ends with whitespace, then strip returns exactly `r` |
| PyStr.StripIdempotent | timecomp.py:36 | stripping twice gives the same as stripping once |
| PyStr.StripNotIn | timecomp.py:50 | stripping cannot create an occurrence of a string the input lacked |
| PyStr.LastFirstFree | timecomp.py:50 | the piece after the last `a`, cut at the first `b`, contains neither `a` nor `b` |
| PyStr.LastFirstStripped | timecomp.py:50-51 | stripping that piece keeps it free of both `a` and `b` |
| PyStr.LastFirstPiece | timecomp.py:50 | that piece lies in the text, starting where the last `a`-piece starts |
| PyStr.LastFirstOf | timecomp.py:50 | in `prefix + a + x + b + tail`, with `x` free of both tags and no `a` after it, that piece is exactly `x` whatever the prefix, for tags `a` and `b` whose first character does not occur again in them and `b` starting with the same character as `a` (as `<answer>` and `</answer>` do) |
| PyStr.SecondPieceTo | timecomp.py:27 | the second split piece runs from the end of the first separator to the next separator |
| PyStr.SecondPieceToEnd | timecomp.py:27 | with one separator, the second split piece is everything after it |
| Regex.StarSpan | timecomp.py:57 | `(?:(?!t).)*` matches a span iff every character in it is not a newline and does not start `t` |
| Regex.MatchesAt | timecomp.py:57 | the spans each construct of the pattern can match: a literal its own text, `^` the empty span at 0, `$` the empty span at the end or before a final newline, a star any run its item accepts, a concatenation any two adjacent spans |
| Regex.Match | timecomp.py:59 | `bool(re.match(pattern, s))`: because `re` backtracks, it holds iff some span starting at 0 matches |
| Regex.MatchAnchored | timecomp.py:57-59 | `re.match` already anchors at 0, so the leading `^` changes nothing |
| Format.ParseSound | timecomp.py:57 | whatever the recogniser accepts is a well-formed completion that renders back to the input exactly |
| Format.ParseRender | timecomp.py:57 | the recogniser recovers every well-formed completion from its rendering |
| Format.FieldStar | timecomp.py:57 | a field of the pattern ends exactly at the first closing tag after it and contains no newline |
| Format.MatchPieces | timecomp.py:57 | every match of the pattern ending at `j` is, in order: `<reasoning>` at 0, a run of characters that are not newlines and do not start `</reasoning>`, `</reasoning>\n<answer>`, such a run for `</answer>`, and `</answer>` ending at `j`, where `$` holds |
| Format.PiecesMatch | timecomp.py:57 | conversely, any string laid out in those pieces is matched by the pattern up to the end of `</answer>` |
| Format.MultiLineNeverMatches | timecomp.py:57 | a completion whose reasoning holds a newline never matches, even when its fields hold closing tags: a match has exactly one newline inside it |
| Format.PatternIffParse | timecomp.py:57-59 | `re.match(pattern, s)` succeeds iff the recogniser accepts `s` |
| Format.PatternIffRendered | timecomp.py:57-59 | the pattern matches exactly `<reasoning>R</reasoning>\n<answer>A</answer>` with an optional final newline, where R and A are single lines, R has no `</reasoning>` and A has no `</answer>` |
| Format.RenderMatchesIffSingleLine | timecomp.py:57 | when the fields contain no closing tags, a rendered completion matches iff both fields are free of newlines |
| Extract.TryXmlAnswer | timecomp.py:49-53 | the `try` body of extract_xml_answer always produces a value, so the `except` never fires |
| Extract.ExtractXmlAnswer | timecomp.py:48-53 | the extracted answer is whitespace-stripped and contains neither `<answer>` nor `</answer>` |
| Extract.XmlAnswerInfix | timecomp.py:48-53 | the extracted answer is a contiguous piece of the input |
| Extract.XmlAnswerOfTagged | timecomp.py:50 | for `prefix<answer>A</answer>tail` with a tag-free A and no `<answer>` after it, the extracted answer is strip(A), whatever the prefix |
| Extract.XmlAnswerOfFormatted | timecomp.py:50 | on a well-formed completion whose answer has no `<answer>`, the extracted answer is the stripped answer field |
| Extract.ExtractHashAnswer | timecomp.py:25-29 | the result is None iff the text has no `####`; otherwise it is stripped and contains no `####` |
| PyStr.FindFromSpec | timecomp.py:27 | `find` returns the first occurrence at or after the start position, and nothing only when there is none |
| Extract.HashAnswerBetween | timecomp.py:27 | with a second `####`, the result is the stripped text between the first and second `####` |
| Extract.HashAnswerLast | timecomp.py:27 | with exactly one `####`, the result is the stripped text after it |
| Dataset.Prompt | timecomp.py:32-36 | a prompt has four messages with roles system, user, assistant, user; the first three are the fixed few-shot messages and the last content is the stripped question |
| Dataset.ProcessBatch | timecomp.py:31-42 | one prompt per question and one expected answer per solution, position by position; an expected answer is None iff its solution has no `####`, otherwise it is stripped and `####`-free |
| Dataset.PromptIgnoresPadding | timecomp.py:36 | questions differing only in surrounding whitespace get the same prompt |
| Rewards.Responses | timecomp.py:58 | reading `completion[0]["content"]` succeeds iff every completion has a message; the contents keep their order |
| Rewards.FormatScore | timecomp.py:59-60 | the score is 0 or 1, and 1 iff the pattern matches |
| Rewards.FormatReward | timecomp.py:55-60 | one score per completion, each 0 or 1, and 1 iff the pattern matches the first message's content; IndexError iff some completion is empty |
| Rewards.FormatScoreIffRendered | timecomp.py:57-60 | the format reward is 1 exactly on renderings of well-formed completions |
| Rewards.MultiLineReasoningScoresZero | timecomp.py:57-60 | any completion whose reasoning spans several lines scores 0, whatever its fields hold |
| Rewards.CorrectnessScore | timecomp.py:75 | the score is 0 or 2, and 2 iff the expected answer is present and equal to the extracted string |
| Rewards.CorrectnessReward | timecomp.py:63-75 | the list has min(len(completions), len(answer)) entries; entry i is 2 iff answer i equals the extracted answer of completion i, else 0; a None or unstripped expected answer scores 0; IndexError iff a completion is empty or completions, answer, prompts or the first prompt is empty |
| Rewards.Verdicts | timecomp.py:73 | one letter per zipped pair, `Y` exactly where that pair scores 2 and `N` elsewhere |
| Rewards.VerdictsMirrorRewards | timecomp.py:73-75 | the printed `Y`/`N` string is as long as the reward list and shows `Y` exactly where the reward is 2 |
| Rewards.FormattedCompletionScores | timecomp.py:50-75 | a well-formed completion whose answer holds no `<answer>` earns the format reward, and earns the correctness reward iff its stripped answer field is the expected answer |
| Rewards.RenderedScoresOne | timecomp.py:57-60 | every rendering of a well-formed completion earns the format reward |
| Rewards.InnerAnswerTagRegraded | timecomp.py:50-75 | the well-formed completion with answer field `x<answer>y` earns the format reward, yet its extracted answer is `y`, so it scores 0 against its own answer field |
| Rewards.FullMarksReachable | timecomp.py:25-75 | an expected answer that is one line and free of answer tags is earned in full by the completion that states it |
| Rewards.FormattingOfNumbersMatters | timecomp.py:75 | a well-formatted answer `4.0` earns the format reward but no correctness reward against the expected `4` |

## Left out

- `TimingCallback` and the replaced `training_step` (timecomp.py:79-124, 198-207) are left out. They measure wall-clock time and patch an external trainer.
- `main` is left out (timecomp.py:127-211). It loads the model and tokenizer, configures and runs `GRPOTrainer`, logs to wandb and saves the model. All of that is foreign library calls and I/O.
- The environment-variable setup (timecomp.py:12) is left out for the same reason.
- `load_from_disk` and the batched `dataset.map` (timecomp.py:23, 44) are left out. `Dataset.ProcessBatch` models a single batch. Applying it batch by batch yields the same columns, because it works element by element.
- The text printed by `correctness_reward_func` (timecomp.py:67-73) is not modelled. The indexing the print does is modelled, because it can raise. So is its Y/N string, by `Rewards.Verdicts`.
- Rewards are integers 0, 1 and 2 instead of the floats 0.0, 1.0 and 2.0. No arithmetic is done on them.
- Messages are records with a role and a content. The `KeyError` a message without `"content"` would raise is not modelled.
- `str.split` is modelled only for a non-empty separator, which is the only kind the program passes.
- Strings are sequences of Dafny `char`, which cannot hold the surrogate code points U+D800 to U+DFFF that a Python `str` can. No scoring behaviour depends on them.
- `Regex` covers only the constructs the one pattern uses. It is not a general model of `re`.
- `Dataset.ProcessBatch`: the contract does not state that the few-shot completion is itself in the rewarded format.
