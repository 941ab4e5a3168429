/**
 * The completion format that format_reward_func rewards:
 *   ^<reasoning>(?:(?!</reasoning>).)*</reasoning>\n<answer>(?:(?!</answer>).)*</answer>$
 * as a `Regex` value, a deterministic recogniser `Parse` with its inverse
 * `Render`, and the proof that the recogniser accepts exactly what the
 * pattern matches.
 */
module Format {
  import opened Wrappers
  import opened PyStr
  import opened Regex

  const OpenReasoning := "<reasoning>"
  const CloseReasoning := "</reasoning>"
  const OpenAnswer := "<answer>"
  const CloseAnswer := "</answer>"
  /** The literal text between the two fields, `</reasoning>\n<answer>`. */
  const Between := CloseReasoning + "\n" + OpenAnswer

  // The pattern, built from its tail.
  const AfterAnswer: Regex := Cat(Lit(CloseAnswer), End)
  const AnswerPart: Regex := Cat(Star(TemperedChar(CloseAnswer)), AfterAnswer)
  const MiddlePart: Regex := Cat(Lit(Between), AnswerPart)
  const ReasoningPart: Regex := Cat(Star(TemperedChar(CloseReasoning)), MiddlePart)
  const Body: Regex := Cat(Lit(OpenReasoning), ReasoningPart)
  /** The pattern of format_reward_func; `re.match` anchors it at 0 as `^` does. */
  const Pattern: Regex := Cat(Start, Body)

  predicate NoNewline(s: string) {
    '\n' !in s
  }

  lemma {:induction false} NoNewlineByIndex(s: string)
    requires forall i :: 0 <= i < |s| ==> s[i] != '\n'
    ensures NoNewline(s)
  {
  }

  /** The parts of a completion in the rewarded format. */
  datatype Tagged = Tagged(reasoning: string, answer: string, finalNewline: bool)

  /** What the pattern allows in each field: one line without the closing tag. */
  predicate WellFormed(c: Tagged) {
    && NoNewline(c.reasoning) && NotIn(CloseReasoning, c.reasoning)
    && NoNewline(c.answer) && NotIn(CloseAnswer, c.answer)
  }

  function Tail(finalNewline: bool): string {
    if finalNewline then "\n" else ""
  }

  /** `<reasoning>R</reasoning>\n<answer>A</answer>`, optionally with a final newline. */
  function Render(c: Tagged): string {
    OpenReasoning + c.reasoning + Between + c.answer + CloseAnswer + Tail(c.finalNewline)
  }

  /** Reads a completion in the rewarded format, taking each field up to the
      first closing tag that follows it. */
  function Parse(s: string): Option<Tagged> {
    if !OccursAt(s, OpenReasoning, 0) then None
    else match FindFrom(s, CloseReasoning, |OpenReasoning|)
    case None => None
    case Some(p) => ParseAnswer(s, p)
  }

  /** Parse after the reasoning field, with `</reasoning>` found at `p`. */
  function ParseAnswer(s: string, p: nat): Option<Tagged>
    requires |OpenReasoning| <= p <= |s|
  {
    if !OccursAt(s, Between, p) then None
    else match FindFrom(s, CloseAnswer, p + |Between|)
    case None => None
    case Some(q) => Fields(s, p, q)
  }

  /** The last step of Parse: with `</reasoning>` at `p` and `</answer>` at
      `q`, both fields must be single lines and `$` must match after `q`. */
  function Fields(s: string, p: nat, q: nat): Option<Tagged>
    requires |OpenReasoning| <= p && p + |Between| <= q <= |s|
  {
    var reasoning := s[|OpenReasoning|..p];
    var answer := s[p + |Between|..q];
    var e := q + |CloseAnswer|;
    if NoNewline(reasoning) && NoNewline(answer) && AtEnd(s, e) then
      Some(Tagged(reasoning, answer, e < |s|))
    else None
  }

  /** None of the tags can overlap itself. */
  lemma {:induction false} TagsHeadUnique()
    ensures HeadUnique(CloseReasoning) && HeadUnique(OpenAnswer) && HeadUnique(CloseAnswer)
  {
  }

  /** Parse's answer once the tag positions are known. */
  lemma {:induction false} ParseAt(s: string, p: nat, q: nat)
    requires OccursAt(s, OpenReasoning, 0)
    requires |OpenReasoning| <= p <= |s| && FindFrom(s, CloseReasoning, |OpenReasoning|) == Some(p)
    requires OccursAt(s, Between, p)
    requires p + |Between| <= q && FindFrom(s, CloseAnswer, p + |Between|) == Some(q)
    requires NoNewline(s[|OpenReasoning|..p]) && NoNewline(s[p + |Between|..q])
    requires AtEnd(s, q + |CloseAnswer|)
    ensures Parse(s) == Some(Tagged(s[|OpenReasoning|..p], s[p + |Between|..q], q + |CloseAnswer| < |s|))
  {
    ParseReachesFields(s, p, q);
  }

  /** Parse hands the tag positions it finds to Fields. */
  lemma {:induction false} ParseReachesFields(s: string, p: nat, q: nat)
    requires OccursAt(s, OpenReasoning, 0)
    requires |OpenReasoning| <= p <= |s| && FindFrom(s, CloseReasoning, |OpenReasoning|) == Some(p)
    requires OccursAt(s, Between, p)
    requires p + |Between| <= q && FindFrom(s, CloseAnswer, p + |Between|) == Some(q)
    ensures Parse(s) == Fields(s, p, q)
  {
    assert Parse(s) == ParseAnswer(s, p);
  }

  /** Whatever Parse accepts is a well-formed completion rendered back exactly. */
  lemma {:induction false} ParseSound(s: string)
    requires Parse(s).Some?
    ensures WellFormed(Parse(s).value) && Render(Parse(s).value) == s
  {
    var p, q := ParseFacts(s);
    FindFromFree(s, CloseReasoning, |OpenReasoning|, p);
    FindFromFree(s, CloseAnswer, p + |Between|, q);
    Layout(s, p, q);
    ParseAt(s, p, q);
  }

  /** A string cut at the tag positions is the concatenation of its pieces. */
  lemma {:induction false} Layout(s: string, p: nat, q: nat)
    requires OccursAt(s, OpenReasoning, 0)
    requires |OpenReasoning| <= p && OccursAt(s, Between, p)
    requires p + |Between| <= q && OccursAt(s, CloseAnswer, q)
    requires AtEnd(s, q + |CloseAnswer|)
    ensures s == OpenReasoning + s[|OpenReasoning|..p] + Between + s[p + |Between|..q]
                 + CloseAnswer + Tail(q + |CloseAnswer| < |s|)
  {
    var o := |OpenReasoning|;
    var a := p + |Between|;
    var e := q + |CloseAnswer|;
    assert s[e..] == Tail(e < |s|) by {
      if e < |s| { assert s[e..] == [s[e]]; }
    }
    assert s[..o] == OpenReasoning && s[p..a] == Between && s[q..e] == CloseAnswer;
    CutSix(s, o, p, a, q, e);
  }

  /** A string is the concatenation of its six pieces between five cuts. */
  lemma {:induction false} CutSix(s: string, o: nat, p: nat, a: nat, q: nat, e: nat)
    requires o <= p <= a <= q <= e <= |s|
    ensures s == s[..o] + s[o..p] + s[p..a] + s[a..q] + s[q..e] + s[e..]
  {
    assert s == s[..e] + s[e..];
    assert s[..e] == s[..q] + s[q..e];
    assert s[..q] == s[..a] + s[a..q];
    assert s[..a] == s[..p] + s[p..a];
    assert s[..p] == s[..o] + s[o..p];
  }

  /** Where each piece of a rendered completion sits. */
  lemma {:induction false} RenderLayout(c: Tagged, p: nat, a: nat, q: nat)
    requires p == |OpenReasoning| + |c.reasoning| && a == p + |Between| && q == a + |c.answer|
    ensures q + |CloseAnswer| <= |Render(c)|
    ensures OccursAt(Render(c), OpenReasoning, 0)
    ensures Render(c)[|OpenReasoning|..p] == c.reasoning
    ensures OccursAt(Render(c), Between, p) && OccursAt(Render(c), CloseReasoning, p)
    ensures Render(c)[a..q] == c.answer
    ensures OccursAt(Render(c), CloseAnswer, q)
    ensures AtEnd(Render(c), q + |CloseAnswer|)
    ensures q + |CloseAnswer| < |Render(c)| <==> c.finalNewline
  {
    var s := Render(c);
    var e := q + |CloseAnswer|;
    assert s == OpenReasoning + c.reasoning + Between + c.answer + CloseAnswer + Tail(c.finalNewline);
    assert s[..|OpenReasoning|] == OpenReasoning;
    assert s[|OpenReasoning|..p] == c.reasoning;
    assert s[p..a] == Between;
    assert s[a..q] == c.answer;
    assert s[q..e] == CloseAnswer;
    assert s[e..] == Tail(c.finalNewline);
    assert s[p..p + |CloseReasoning|] == Between[..|CloseReasoning|] == CloseReasoning;
  }

  /** Parse inverts Render on every well-formed completion. */
  lemma {:induction false} ParseRender(c: Tagged)
    requires WellFormed(c)
    ensures Parse(Render(c)) == Some(c)
  {
    var s := Render(c);
    var p := |OpenReasoning| + |c.reasoning|;
    var a := p + |Between|;
    var q := a + |c.answer|;
    RenderLayout(c, p, a, q);
    RenderFinds(c, p, a, q);
    ParseAt(s, p, q);
  }

  /** In a rendering whose fields hold no closing tag, each closing tag is
      found right after its field. */
  lemma {:induction false} RenderFinds(c: Tagged, p: nat, a: nat, q: nat)
    requires NotIn(CloseReasoning, c.reasoning) && NotIn(CloseAnswer, c.answer)
    requires p == |OpenReasoning| + |c.reasoning| && a == p + |Between| && q == a + |c.answer|
    ensures FindFrom(Render(c), CloseReasoning, |OpenReasoning|) == Some(p)
    ensures FindFrom(Render(c), CloseAnswer, a) == Some(q)
  {
    var s := Render(c);
    RenderLayout(c, p, a, q);
    TagsHeadUnique();
    FindAfterFree(s, CloseReasoning, |OpenReasoning|, p);
    FindAfterFree(s, CloseAnswer, a, q);
  }

  /** A field of the pattern, `(?:(?!t).)*` followed by `t`, spans exactly up
      to the first `t` and holds no newline. */
  lemma {:induction false} FieldStar(s: string, t: string, i: nat, j: nat)
    requires i <= j <= |s| && OccursAt(s, t, j)
    ensures MatchesAt(Star(TemperedChar(t)), s, i, j) <==> (FindFrom(s, t, i) == Some(j) && NoNewline(s[i..j]))
  {
    StarSpan(TemperedChar(t), s, i, j);
    if MatchesAt(Star(TemperedChar(t)), s, i, j) {
      forall k | i <= k < j
        ensures !OccursAt(s, t, k) && s[k] != '\n'
      {
        assert AtomAt(TemperedChar(t), s, k);
      }
      FindFromIs(s, t, i, j);
      forall k | 0 <= k < j - i
        ensures s[i..j][k] != '\n'
      {
        assert s[i..j][k] == s[i + k];
      }
      NoNewlineByIndex(s[i..j]);
    }
    if FindFrom(s, t, i) == Some(j) && NoNewline(s[i..j]) {
      FindFromSpec(s, t, i);
      forall k | i <= k < j
        ensures AtomAt(TemperedChar(t), s, k)
      {
        assert s[k] == s[i..j][k - i] && s[i..j][k - i] in s[i..j];
      }
    }
  }

  /** The positions Parse finds in a string it accepts. */
  lemma {:induction false} ParseFacts(s: string) returns (p: nat, q: nat)
    requires Parse(s).Some?
    ensures OccursAt(s, OpenReasoning, 0)
    ensures |OpenReasoning| <= p <= |s| && FindFrom(s, CloseReasoning, |OpenReasoning|) == Some(p)
    ensures OccursAt(s, Between, p)
    ensures p + |Between| <= q <= |s| && FindFrom(s, CloseAnswer, p + |Between|) == Some(q)
    ensures OccursAt(s, CloseAnswer, q)
    ensures NoNewline(s[|OpenReasoning|..p]) && NoNewline(s[p + |Between|..q])
    ensures AtEnd(s, q + |CloseAnswer|)
  {
    p := FindFrom(s, CloseReasoning, |OpenReasoning|).value;
    q := FindFrom(s, CloseAnswer, p + |Between|).value;
    assert Parse(s) == Fields(s, p, q);
  }

  /** What Parse accepts, the pattern matches. */
  lemma {:induction false} ParseMatches(s: string)
    requires Parse(s).Some?
    ensures Match(Pattern, s)
  {
    var p, q := ParsePieces(s);
    PiecesMatch(s, p, q);
  }

  /** A string Parse accepts is laid out in the pieces of the pattern. */
  lemma {:induction false} ParsePieces(s: string) returns (p: nat, q: nat)
    requires Parse(s).Some?
    ensures |OpenReasoning| <= p && p + |Between| <= q && q + |CloseAnswer| <= |s|
    ensures OccursAt(s, OpenReasoning, 0) && OccursAt(s, Between, p) && OccursAt(s, CloseAnswer, q)
    ensures MatchesAt(Star(TemperedChar(CloseReasoning)), s, |OpenReasoning|, p)
    ensures MatchesAt(Star(TemperedChar(CloseAnswer)), s, p + |Between|, q)
    ensures AtEnd(s, q + |CloseAnswer|)
  {
    p, q := ParseFacts(s);
    assert OccursAt(s, CloseReasoning, p) by {
      assert s[p..p + |CloseReasoning|] == s[p..p + |Between|][..|CloseReasoning|];
    }
    FieldMatches(s, CloseReasoning, |OpenReasoning|, p);
    FieldMatches(s, CloseAnswer, p + |Between|, q);
  }

  /** A field that ends at the first closing tag after it and holds no
      newline is matched by the field's star. */
  lemma {:induction false} FieldMatches(s: string, t: string, i: nat, j: nat)
    requires i <= j <= |s| && OccursAt(s, t, j)
    requires FindFrom(s, t, i) == Some(j) && NoNewline(s[i..j])
    ensures MatchesAt(Star(TemperedChar(t)), s, i, j)
  {
    FieldStar(s, t, i, j);
  }

  /** `<reasoning>`, the reasoning field and a match of the rest make a match
      of the whole pattern. */
  lemma {:induction false} HeadMatches(s: string, p: nat, e: int)
    requires |OpenReasoning| <= p && OccursAt(s, OpenReasoning, 0)
    requires MatchesAt(Star(TemperedChar(CloseReasoning)), s, |OpenReasoning|, p)
    requires MatchesAt(MiddlePart, s, p, e)
    ensures MatchesAt(Pattern, s, 0, e)
  {
    var o := |OpenReasoning|;
    CatJoin(Star(TemperedChar(CloseReasoning)), MiddlePart, s, o, p, e);
    assert MatchesAt(Lit(OpenReasoning), s, 0, o);
    CatJoin(Lit(OpenReasoning), ReasoningPart, s, 0, o, e);
    assert MatchesAt(Start, s, 0, 0);
    CatJoin(Start, Body, s, 0, 0, e);
  }

  /** What the pattern matches, Parse accepts. */
  lemma {:induction false} MatchParses(s: string, j: int)
    requires MatchesAt(Pattern, s, 0, j)
    ensures Parse(s).Some?
  {
    var p, q := MatchPieces(s, j);
    assert OccursAt(s, CloseReasoning, p) by {
      assert s[p..p + |CloseReasoning|] == s[p..p + |Between|][..|CloseReasoning|];
    }
    FieldStar(s, CloseReasoning, |OpenReasoning|, p);
    FieldStar(s, CloseAnswer, p + |Between|, q);
    ParseAt(s, p, q);
  }

  /** The spans a match of the pattern is made of. */
  lemma {:induction false} MatchPieces(s: string, j: int) returns (p: nat, q: nat)
    requires MatchesAt(Pattern, s, 0, j)
    ensures |OpenReasoning| <= p && p + |Between| <= q && q + |CloseAnswer| <= |s|
    ensures OccursAt(s, OpenReasoning, 0) && OccursAt(s, Between, p) && OccursAt(s, CloseAnswer, q)
    ensures MatchesAt(Star(TemperedChar(CloseReasoning)), s, |OpenReasoning|, p)
    ensures MatchesAt(Star(TemperedChar(CloseAnswer)), s, p + |Between|, q)
    ensures AtEnd(s, q + |CloseAnswer|) && j == q + |CloseAnswer|
  {
    p := HeadPieces(s, j);
    q := MiddlePieces(s, p, j);
  }

  /** A match of the pattern opens with `<reasoning>` and the reasoning field. */
  lemma {:induction false} HeadPieces(s: string, j: int) returns (p: nat)
    requires MatchesAt(Pattern, s, 0, j)
    ensures |OpenReasoning| <= p && OccursAt(s, OpenReasoning, 0)
    ensures MatchesAt(Star(TemperedChar(CloseReasoning)), s, |OpenReasoning|, p)
    ensures MatchesAt(MiddlePart, s, p, j)
  {
    var o := |OpenReasoning|;
    var m0 := CatSplit(Start, Body, s, 0, j);
    var m1 := CatSplit(Lit(OpenReasoning), ReasoningPart, s, m0, j);
    assert m1 == o;
    p := CatSplit(Star(TemperedChar(CloseReasoning)), MiddlePart, s, o, j);
  }

  /** The rest of a match: `</reasoning>\n<answer>`, the answer field,
      `</answer>` and `$`. */
  lemma {:induction false} MiddlePieces(s: string, p: nat, j: int) returns (q: nat)
    requires MatchesAt(MiddlePart, s, p, j)
    ensures p + |Between| <= q && q + |CloseAnswer| <= |s|
    ensures OccursAt(s, Between, p) && OccursAt(s, CloseAnswer, q)
    ensures MatchesAt(Star(TemperedChar(CloseAnswer)), s, p + |Between|, q)
    ensures AtEnd(s, q + |CloseAnswer|) && j == q + |CloseAnswer|
  {
    var a := CatSplit(Lit(Between), AnswerPart, s, p, j);
    q := CatSplit(Star(TemperedChar(CloseAnswer)), AfterAnswer, s, a, j);
    var e := CatSplit(Lit(CloseAnswer), End, s, q, j);
    assert a == p + |Between| && e == q + |CloseAnswer|;
  }

  /** The pattern read piece by piece, converse of MatchPieces: `<reasoning>`,
      a tempered run up to `</reasoning>`, `</reasoning>\n<answer>`, a
      tempered run up to `</answer>`, `</answer>` and `$` make up a match. */
  lemma {:induction false} PiecesMatch(s: string, p: nat, q: nat)
    requires |OpenReasoning| <= p && p + |Between| <= q && q + |CloseAnswer| <= |s|
    requires OccursAt(s, OpenReasoning, 0) && OccursAt(s, Between, p) && OccursAt(s, CloseAnswer, q)
    requires MatchesAt(Star(TemperedChar(CloseReasoning)), s, |OpenReasoning|, p)
    requires MatchesAt(Star(TemperedChar(CloseAnswer)), s, p + |Between|, q)
    requires AtEnd(s, q + |CloseAnswer|)
    ensures MatchesAt(Pattern, s, 0, q + |CloseAnswer|)
  {
    var a := p + |Between|;
    var e := q + |CloseAnswer|;
    assert MatchesAt(End, s, e, e);
    assert MatchesAt(Lit(CloseAnswer), s, q, e);
    CatJoin(Lit(CloseAnswer), End, s, q, e, e);
    CatJoin(Star(TemperedChar(CloseAnswer)), AfterAnswer, s, a, q, e);
    assert MatchesAt(Lit(Between), s, p, a);
    CatJoin(Lit(Between), AnswerPart, s, p, a, e);
    HeadMatches(s, p, e);
  }

  /** `re.match(pattern, s)` succeeds exactly when Parse accepts `s`. */
  lemma {:induction false} PatternIffParse(s: string)
    ensures Match(Pattern, s) <==> Parse(s).Some?
  {
    if Match(Pattern, s) {
      var j :| 0 <= j <= |s| && MatchesAt(Pattern, s, 0, j);
      MatchParses(s, j);
    }
    if Parse(s).Some? {
      ParseMatches(s);
    }
  }

  /** The pattern matches exactly the renderings of well-formed completions. */
  lemma {:induction false} PatternIffRendered(s: string)
    ensures Match(Pattern, s) <==> exists c :: WellFormed(c) && Render(c) == s
  {
    PatternIffParse(s);
    if Parse(s).Some? {
      ParseSound(s);
    }
    if exists c :: WellFormed(c) && Render(c) == s {
      var c :| WellFormed(c) && Render(c) == s;
      ParseRender(c);
    }
  }

  /** Reasoning that spans several lines is never matched, whatever the
      fields hold. A rendering holds the newlines of its fields, the one in
      `</reasoning>\n<answer>` and the optional final one; a matched string
      is also the rendering of fields without newlines, so it holds fewer. */
  lemma {:induction false} MultiLineNeverMatches(c: Tagged)
    requires '\n' in c.reasoning
    ensures !Match(Pattern, Render(c))
  {
    var s := Render(c);
    PatternIffParse(s);
    if Parse(s).Some? {
      var d := Parse(s).value;
      assert multiset(c.reasoning)['\n'] > 0;
      ParseSound(s);
      NewlineFree(d.reasoning);
      NewlineFree(d.answer);
      NewlineCount(c);
      NewlineCount(d);
      LastChar(c);
      LastChar(d);
      assert false;
    }
  }

  /** A line without a newline contributes none to the count. */
  lemma {:induction false} NewlineFree(t: string)
    requires NoNewline(t)
    ensures multiset(t)['\n'] == 0
  {
  }

  /** The newlines of a rendering: those of the fields, the one between them
      and the optional final one. */
  lemma {:induction false} NewlineCount(c: Tagged)
    ensures multiset(Render(c))['\n'] ==
      multiset(c.reasoning)['\n'] + multiset(c.answer)['\n'] + 1 + (if c.finalNewline then 1 else 0)
  {
    TagNewlines();
    assert multiset(Tail(c.finalNewline))['\n'] == if c.finalNewline then 1 else 0;
    CountPieces(OpenReasoning, c.reasoning, Between, c.answer, CloseAnswer, Tail(c.finalNewline));
  }

  /** The tags hold no newline; the text between the fields holds one. */
  lemma {:induction false} TagNewlines()
    ensures multiset(OpenReasoning)['\n'] == 0 && multiset(CloseAnswer)['\n'] == 0
    ensures multiset(Between)['\n'] == 1
  {
    TagsOneLine();
    NewlineFree(OpenReasoning);
    NewlineFree(CloseReasoning);
    NewlineFree(OpenAnswer);
    NewlineFree(CloseAnswer);
    assert multiset(Between) == multiset(CloseReasoning) + multiset("\n") + multiset(OpenAnswer);
  }

  /** No tag holds a newline. */
  lemma {:induction false} TagsOneLine()
    ensures NoNewline(OpenReasoning) && NoNewline(CloseReasoning)
    ensures NoNewline(OpenAnswer) && NoNewline(CloseAnswer)
  {
  }

  /** Newlines add up over a concatenation of six pieces. */
  lemma {:induction false} CountPieces(a: string, b: string, c: string, d: string, e: string, f: string)
    ensures multiset(a + b + c + d + e + f)['\n'] ==
      multiset(a)['\n'] + multiset(b)['\n'] + multiset(c)['\n'] + multiset(d)['\n'] + multiset(e)['\n'] + multiset(f)['\n']
  {
    assert multiset(a + b + c + d + e + f) == multiset(a) + multiset(b) + multiset(c) + multiset(d) + multiset(e) + multiset(f);
  }

  /** A rendering ends in a newline exactly when it has the final one. */
  lemma {:induction false} LastChar(c: Tagged)
    ensures Render(c)[|Render(c)| - 1] == '\n' <==> c.finalNewline
  {
    var s := Render(c);
    var body := OpenReasoning + c.reasoning + Between + c.answer + CloseAnswer;
    assert s == body + Tail(c.finalNewline);
    if !c.finalNewline {
      assert s[|s| - 1] == CloseAnswer[|CloseAnswer| - 1];
    }
  }

  /** With neither field holding its closing tag, a rendered completion matches
      exactly when both fields are single lines: multi-line reasoning scores 0. */
  lemma {:induction false} RenderMatchesIffSingleLine(c: Tagged)
    requires NotIn(CloseReasoning, c.reasoning) && NotIn(CloseAnswer, c.answer)
    ensures Match(Pattern, Render(c)) <==> NoNewline(c.reasoning) && NoNewline(c.answer)
  {
    var s := Render(c);
    var p := |OpenReasoning| + |c.reasoning|;
    var a := p + |Between|;
    var q := a + |c.answer|;
    RenderLayout(c, p, a, q);
    RenderFinds(c, p, a, q);
    ParseReachesFields(s, p, q);
    PatternIffParse(s);
  }
}
