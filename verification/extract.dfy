/**
 * Pulling answers out of text: extract_xml_answer on model completions and
 * extract_hash_answer on the dataset's worked solutions.
 */
module Extract {
  import opened Wrappers
  import opened PyStr
  import opened Format

  /** The marker that precedes the final answer in a dataset solution. */
  const Hash := "####"

  /** The body of the `try` in extract_xml_answer:
      `text.split("<answer>")[-1].split("</answer>")[0].strip()`, where `None`
      stands for the IndexError its `except` clause catches. No index ever
      fails, because `split` never returns an empty list. */
  function TryXmlAnswer(text: string): (r: Option<string>)
    ensures r.Some?
  {
    var outer := Split(text, OpenAnswer);
    if |outer| == 0 then None
    else
      var inner := Split(outer[|outer| - 1], CloseAnswer);
      if |inner| == 0 then None
      else Some(Strip(inner[0]))
  }

  /** extract_xml_answer: what follows the last `<answer>` (all of the text
      when there is none), cut at the first `</answer>` after it, stripped;
      `""` from the (unreachable) `except`. */
  function ExtractXmlAnswer(text: string): (r: string)
    ensures Trimmed(r)
    ensures NotIn(OpenAnswer, r) && NotIn(CloseAnswer, r)
  {
    TryXmlAnswerFacts(text);
    match TryXmlAnswer(text)
    case Some(a) => a
    case None => ""
  }

  /** What the `try` body yields is stripped and free of both tags. */
  lemma {:induction false} TryXmlAnswerFacts(text: string)
    ensures TryXmlAnswer(text).Some?
    ensures Trimmed(TryXmlAnswer(text).value)
    ensures NotIn(OpenAnswer, TryXmlAnswer(text).value) && NotIn(CloseAnswer, TryXmlAnswer(text).value)
  {
    LastFirstStripped(text, OpenAnswer, CloseAnswer);
    TryXmlAnswerIs(text);
  }

  /** The `try` body yields the stripped first piece of the last piece. */
  lemma {:induction false} TryXmlAnswerIs(text: string)
    ensures TryXmlAnswer(text) == Some(Strip(LastFirst(text, OpenAnswer, CloseAnswer)))
  {
  }

  /** extract_xml_answer is the `try` body's value. */
  lemma {:induction false} XmlAnswerIs(text: string)
    ensures ExtractXmlAnswer(text) == Strip(LastFirst(text, OpenAnswer, CloseAnswer))
  {
    TryXmlAnswerIs(text);
  }

  /** extract_xml_answer returns a piece of its input. */
  lemma {:induction false} XmlAnswerInfix(text: string)
    ensures Infix(ExtractXmlAnswer(text), text)
  {
    LastFirstPiece(text, OpenAnswer, CloseAnswer);
    XmlAnswerIs(text);
    StripInfix(text, LastFirst(text, OpenAnswer, CloseAnswer), |text| - |LastPiece(text, OpenAnswer)|);
  }

  /** The answer after the last `<answer>` tag is what extract_xml_answer
      returns, whatever precedes that tag. */
  lemma {:induction false} XmlAnswerOfTagged(prefix: string, answer: string, tail: string)
    requires NotIn(OpenAnswer, answer) && NotIn(CloseAnswer, answer)
    requires NotIn(OpenAnswer, CloseAnswer + tail)
    ensures ExtractXmlAnswer(prefix + OpenAnswer + answer + CloseAnswer + tail) == Strip(answer)
  {
    TagsHeadUnique();
    LastFirstOf(prefix, OpenAnswer, answer, CloseAnswer, tail);
    XmlAnswerIs(prefix + OpenAnswer + answer + CloseAnswer + tail);
  }

  /** `</answer>` and an optional final newline hold no `<answer>`. */
  lemma {:induction false} CloseAnswerTail(finalNewline: bool)
    ensures NotIn(OpenAnswer, CloseAnswer + Tail(finalNewline))
  {
    var y := CloseAnswer + Tail(finalNewline);
    forall k | 0 <= k <= |y|
      ensures !OccursAt(y, OpenAnswer, k)
    {
      if k + |OpenAnswer| <= |y| {
        if k == 0 {
          assert y[k..k + |OpenAnswer|][1] != OpenAnswer[1];
        } else {
          assert y[k..k + |OpenAnswer|][0] != OpenAnswer[0];
        }
      }
    }
  }

  /** On a completion in the rewarded format whose answer holds no `<answer>`,
      extract_xml_answer returns the stripped answer field. */
  lemma {:induction false} XmlAnswerOfFormatted(c: Tagged)
    requires WellFormed(c) && NotIn(OpenAnswer, c.answer)
    ensures ExtractXmlAnswer(Render(c)) == Strip(c.answer)
  {
    var prefix := OpenReasoning + c.reasoning + CloseReasoning + "\n";
    assert Render(c) == prefix + OpenAnswer + c.answer + CloseAnswer + Tail(c.finalNewline);
    CloseAnswerTail(c.finalNewline);
    XmlAnswerOfTagged(prefix, c.answer, Tail(c.finalNewline));
  }

  /** extract_hash_answer: the stripped field after the first `####`, or
      `None` (from the IndexError) when there is no `####`. */
  function ExtractHashAnswer(text: string): (r: Option<string>)
    ensures r.None? <==> NotIn(Hash, text)
    ensures r.Some? ==> Trimmed(r.value) && NotIn(Hash, r.value)
  {
    var parts := Split(text, Hash);
    SplitSingle(text, Hash);
    if |parts| < 2 then None
    else
      SplitPiecesFree(text, Hash);
      StripNotIn(Hash, parts[1]);
      Some(Strip(parts[1]))
  }

  /** With a second `####`, extract_hash_answer keeps what lies between the
      first two. */
  lemma {:induction false} HashAnswerBetween(text: string, p: nat, q: nat)
    requires Find(text, Hash) == Some(p)
    requires p + |Hash| <= |text| && FindFrom(text, Hash, p + |Hash|) == Some(q)
    ensures p + |Hash| <= q && ExtractHashAnswer(text) == Some(Strip(text[p + |Hash|..q]))
  {
    SecondPieceTo(text, Hash, p, q);
  }

  /** With a single `####`, extract_hash_answer keeps everything after it. */
  lemma {:induction false} HashAnswerLast(text: string, p: nat)
    requires Find(text, Hash) == Some(p)
    requires p + |Hash| <= |text| && FindFrom(text, Hash, p + |Hash|).None?
    ensures ExtractHashAnswer(text) == Some(Strip(text[p + |Hash|..]))
  {
    SecondPieceToEnd(text, Hash, p);
  }
}
