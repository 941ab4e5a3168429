/**
 * process_batch: each GSM8K-style record becomes a chat prompt (system
 * instructions, one worked example, the stripped question) and the expected
 * answer that extract_hash_answer finds in the record's solution.
 */
module Dataset {
  import opened Wrappers
  import opened PyStr
  import opened Extract

  datatype Role = System | User | Assistant

  /** One chat message, `{'role': ..., 'content': ...}`. */
  datatype Message = Message(role: Role, content: string)

  const R1StyleSystemPrompt :=
    "A conversation between User and Assistant. The user asks a question, and the Assistant solves it.\n"
    + "The assistant first thinks about the reasoning process in the mind and then provides the user\n"
    + "with the answer. The reasoning process and answer are enclosed within <reasoning> </reasoning> and\n"
    + "<answer> </answer> tags, respectively, i.e., <reasoning> reasoning process here </reasoning>\n"
    + "<answer> answer here </answer>."

  const TaskSpecificInstructions := "The answer must be a single integer."

  const SystemContent := R1StyleSystemPrompt + "\n" + TaskSpecificInstructions

  /** The worked example shown before every question. */
  const ExampleQuestion := "What is 2+2?"
  const ExampleCompletion :=
    "<reasoning>To calculate 2+2, we simply add the numbers together: 2 + 2 = 4.</reasoning>\n<answer>4</answer>"

  /** The messages every prompt starts with. */
  const FewShot: seq<Message> := [
    Message(System, SystemContent),
    Message(User, ExampleQuestion),
    Message(Assistant, ExampleCompletion)
  ]

  /** The columns of a batch that process_batch reads. */
  datatype Batch = Batch(question: seq<string>, answer: seq<string>)

  /** The columns process_batch returns. */
  datatype Processed = Processed(prompt: seq<seq<Message>>, answer: seq<Option<string>>)

  /** The four-message prompt built for one question. */
  function Prompt(question: string): (m: seq<Message>)
    ensures |m| == 4 && m[..3] == FewShot
    ensures m[0].role == System && m[1].role == User && m[2].role == Assistant && m[3].role == User
    ensures m[3].content == Strip(question) && Trimmed(m[3].content)
  {
    FewShot + [Message(User, Strip(question))]
  }

  /** process_batch: one prompt per question and one expected answer per
      solution, each in its input's position. */
  function ProcessBatch(batch: Batch): (r: Processed)
    ensures |r.prompt| == |batch.question| && |r.answer| == |batch.answer|
    ensures forall i :: 0 <= i < |r.prompt| ==> r.prompt[i] == Prompt(batch.question[i])
    ensures forall i :: 0 <= i < |r.answer| ==> r.answer[i] == ExtractHashAnswer(batch.answer[i])
    ensures forall i :: 0 <= i < |r.answer| ==>
      (r.answer[i].None? <==> NotIn(Hash, batch.answer[i])) &&
      (r.answer[i].Some? ==> Trimmed(r.answer[i].value) && NotIn(Hash, r.answer[i].value))
  {
    Processed(
      seq(|batch.question|, i requires 0 <= i < |batch.question| => Prompt(batch.question[i])),
      seq(|batch.answer|, i requires 0 <= i < |batch.answer| => ExtractHashAnswer(batch.answer[i])))
  }

  /** Whitespace around a question does not change its prompt. */
  lemma {:induction false} PromptIgnoresPadding(question: string, padded: string)
    requires Padded(padded, question) && Trimmed(question)
    ensures Prompt(padded) == Prompt(question)
  {
    StripUnique(padded, question);
    StripOfTrimmed(question);
    assert Strip(padded) == Strip(question);
  }
}
