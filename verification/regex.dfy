/**
 * The fragment of Python's `re` that the format check uses: literal text,
 * the anchors `^` and `$` (without MULTILINE), and the star of the
 * tempered dot `(?!stop).` (without DOTALL).
 * A pattern denotes the set of spans it can match; because `re` backtracks,
 * `re.match` succeeds exactly when some span starting at 0 is matched.
 */
module Regex {
  import opened PyStr

  /** An item that consumes exactly one character: `(?!stop).`, any
      character but a newline where `stop` does not begin. */
  datatype Atom = TemperedChar(stop: string)

  datatype Regex =
    | Lit(text: string)          // literal characters
    | Start                      // `^`
    | End                        // `$`
    | Star(atom: Atom)           // `(?:atom)*`
    | Cat(left: Regex, right: Regex)

  /** `a` accepts the character at index `k` of `s`; lookaheads see all of `s`. */
  predicate AtomAt(a: Atom, s: string, k: int)
    requires 0 <= k < |s|
  {
    s[k] != '\n' && !OccursAt(s, a.stop, k)
  }

  /** Where `$` (without MULTILINE) matches: at the end, or before a final newline. */
  predicate AtEnd(s: string, e: int) {
    e == |s| || (e + 1 == |s| && 0 <= e && s[e] == '\n')
  }

  /** `re` can match the span `s[i..j]`. */
  predicate MatchesAt(re: Regex, s: string, i: int, j: int)
    decreases re, j - i
  {
    0 <= i <= j <= |s| &&
    match re
    case Lit(t) => s[i..j] == t
    case Start => i == 0 && j == 0
    case End => i == j && AtEnd(s, j)
    case Star(a) => i == j || (AtomAt(a, s, i) && MatchesAt(re, s, i + 1, j))
    case Cat(l, r) => exists m :: i <= m <= j && MatchesAt(l, s, i, m) && MatchesAt(r, s, m, j)
  }

  /** `bool(re.match(pattern, s))`: some prefix of `s` is matched. */
  predicate Match(re: Regex, s: string) {
    exists j :: 0 <= j <= |s| && MatchesAt(re, s, 0, j)
  }

  /** `re.match` already anchors at 0, so a leading `^` changes nothing. */
  lemma {:induction false} MatchAnchored(re: Regex, s: string)
    ensures Match(Cat(Start, re), s) <==> Match(re, s)
  {
    if Match(Cat(Start, re), s) {
      var j :| 0 <= j <= |s| && MatchesAt(Cat(Start, re), s, 0, j);
      var m := CatSplit(Start, re, s, 0, j);
      assert MatchesAt(re, s, 0, j);
    }
    if Match(re, s) {
      var j :| 0 <= j <= |s| && MatchesAt(re, s, 0, j);
      assert MatchesAt(Start, s, 0, 0);
      CatJoin(Start, re, s, 0, 0, j);
    }
  }

  /** A star matches a span exactly when its item accepts every character of it. */
  lemma {:induction false} StarSpan(a: Atom, s: string, i: nat, j: nat)
    requires i <= j <= |s|
    ensures MatchesAt(Star(a), s, i, j) <==> forall k :: i <= k < j ==> AtomAt(a, s, k)
    decreases j - i
  {
    if i < j {
      StarSpan(a, s, i + 1, j);
    }
  }

  /** A span matched by `Cat(l, r)` splits into spans matched by `l` and `r`. */
  lemma {:induction false} CatSplit(l: Regex, r: Regex, s: string, i: int, j: int) returns (m: int)
    requires MatchesAt(Cat(l, r), s, i, j)
    ensures i <= m <= j && MatchesAt(l, s, i, m) && MatchesAt(r, s, m, j)
  {
    m :| i <= m <= j && MatchesAt(l, s, i, m) && MatchesAt(r, s, m, j);
  }

  /** Adjacent spans matched by `l` and `r` form one matched by `Cat(l, r)`. */
  lemma {:induction false} CatJoin(l: Regex, r: Regex, s: string, i: int, m: int, j: int)
    requires MatchesAt(l, s, i, m) && MatchesAt(r, s, m, j)
    ensures MatchesAt(Cat(l, r), s, i, j)
  {
  }
}
