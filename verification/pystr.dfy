/**
 * The parts of Python's `str` the scoring code uses: `str.split(sep)` with a
 * non-empty separator and the argument-less `str.strip()`, with `str.find`
 * and `sep.join` to describe `split`.
 */
module PyStr {
  import opened Wrappers

  // ---------------------------------------------------------------------------
  // Occurrences
  // ---------------------------------------------------------------------------

  /** `t` occurs in `s` starting at index `k`. */
  predicate OccursAt(s: string, t: string, k: int) {
    0 <= k && k + |t| <= |s| && s[k..k + |t|] == t
  }

  /** `x` is a contiguous piece of `s`. */
  ghost predicate Infix(x: string, s: string) {
    exists a :: OccursAt(s, x, a)
  }

  /** Python's `t not in s`. */
  predicate NotIn(t: string, s: string) {
    forall k :: 0 <= k <= |s| ==> !OccursAt(s, t, k)
  }

  /** No character of `t` after the first one equals the first one.
      Such a `t` cannot overlap itself, so occurrences never straddle. */
  predicate HeadUnique(t: string) {
    |t| > 0 && forall k :: 0 < k < |t| ==> t[k] != t[0]
  }

  /** Python's `s.find(t, i)`: the first occurrence of `t` at or after `i`. */
  function FindFrom(s: string, t: string, i: nat): (r: Option<nat>)
    requires i <= |s|
    decreases |s| - i
    ensures r.Some? ==> i <= r.value <= |s| && OccursAt(s, t, r.value)
  {
    if OccursAt(s, t, i) then Some(i)
    else if i == |s| then None
    else FindFrom(s, t, i + 1)
  }

  /** FindFrom finds the first occurrence, and finds nothing only when there is none. */
  lemma {:induction false} FindFromSpec(s: string, t: string, i: nat)
    requires i <= |s|
    decreases |s| - i
    ensures FindFrom(s, t, i).Some? ==>
      forall k :: i <= k < FindFrom(s, t, i).value ==> !OccursAt(s, t, k)
    ensures FindFrom(s, t, i).None? <==> forall k :: i <= k <= |s| ==> !OccursAt(s, t, k)
  {
    if !OccursAt(s, t, i) && i < |s| {
      FindFromSpec(s, t, i + 1);
    }
  }

  /** Python's `s.find(t)`. */
  function Find(s: string, t: string): Option<nat> {
    FindFrom(s, t, 0)
  }

  /** An occurrence with none before it (from `i` on) is what `FindFrom` returns. */
  lemma {:induction false} FindFromIs(s: string, t: string, i: nat, j: nat)
    requires i <= j <= |s|
    requires OccursAt(s, t, j)
    requires forall k :: i <= k < j ==> !OccursAt(s, t, k)
    ensures FindFrom(s, t, i) == Some(j)
    decreases j - i
  {
    if i < j {
      assert !OccursAt(s, t, i);
      FindFromIs(s, t, i + 1, j);
    }
  }

  lemma {:induction false} DropConcat(x: string, y: string, j: nat)
    requires j <= |x|
    ensures (x + y)[j..] == x[j..] + y
  {
  }

  lemma {:induction false} TakeConcat(x: string, y: string, j: nat)
    requires j <= |x|
    ensures (x + y)[..j] == x[..j]
  {
  }

  lemma {:induction false} ConcatAssoc<T>(a: seq<T>, b: seq<T>, c: seq<T>)
    ensures a + (b + c) == (a + b) + c
  {
  }

  /** Slicing a slice is slicing the original. */
  lemma {:induction false} SubSlice(s: string, i: nat, j: nat, a: nat, b: nat)
    requires i <= j <= |s| && a <= b <= j - i
    ensures s[i..j][a..b] == s[i + a..i + b]
  {
    var u := s[i..j][a..b];
    var v := s[i + a..i + b];
    forall m | 0 <= m < |u|
      ensures u[m] == v[m]
    {
      assert u[m] == s[i..j][a + m] == s[i + a + m];
    }
  }

  /** A string without the first character of `t` holds no `t`. */
  lemma {:induction false} NotInByHead(t: string, s: string)
    requires |t| > 0 && t[0] !in s
    ensures NotIn(t, s)
  {
    forall k | 0 <= k <= |s|
      ensures !OccursAt(s, t, k)
    {
      if k + |t| <= |s| {
        assert s[k..k + |t|][0] == s[k];
      }
    }
  }

  /** An occurrence within `s[i..j]` is an occurrence within `s`. */
  lemma {:induction false} OccursInSlice(s: string, t: string, i: nat, j: nat, k: nat)
    requires i <= j <= |s|
    requires OccursAt(s[i..j], t, k)
    ensures OccursAt(s, t, i + k)
  {
    SubSlice(s, i, j, k, k + |t|);
  }

  /** A slice of a string without `t` is without `t`. */
  lemma {:induction false} NotInSlice(t: string, s: string, i: nat, j: nat)
    requires i <= j <= |s|
    requires NotIn(t, s)
    ensures NotIn(t, s[i..j])
  {
    forall k | 0 <= k <= j - i
      ensures !OccursAt(s[i..j], t, k)
    {
      if OccursAt(s[i..j], t, k) {
        OccursInSlice(s, t, i, j, k);
      }
    }
  }

  /** A prefix of a string without `t` is without `t`. */
  lemma {:induction false} NotInPrefix(t: string, s: string, p: string)
    requires NotIn(t, s) && |p| <= |s| && s[0..|p|] == p
    ensures NotIn(t, p)
  {
    forall k | 0 <= k <= |p|
      ensures !OccursAt(p, t, k)
    {
      if OccursAt(p, t, k) {
        assert p[k..k + |t|] == s[k..k + |t|];
        assert OccursAt(s, t, k);
      }
    }
  }

  /** A character equal to the head of a non-overlapping `t` cannot sit
      strictly inside an occurrence of `t`. */
  lemma {:induction false} NoStraddle(s: string, t: string, k: nat, j: nat)
    requires HeadUnique(t)
    requires k < j < k + |t| && j < |s|
    requires s[j] == t[0]
    ensures !OccursAt(s, t, k)
  {
    if k + |t| <= |s| {
      assert s[k..k + |t|][j - k] == s[j];
      assert t[j - k] != t[0];
    }
  }

  /** An occurrence that ends by `j` is an occurrence in `s[i..j]`. */
  lemma {:induction false} OccursBefore(s: string, t: string, i: nat, j: nat, k: nat)
    requires i <= k && k + |t| <= j <= |s|
    requires OccursAt(s, t, k)
    ensures OccursAt(s[i..j], t, k - i)
  {
    SubSlice(s, i, j, k - i, k - i + |t|);
  }

  /** When `t` cannot overlap itself and occurs at `j`, while `s[i..j]` holds no
      `t`, the first occurrence from `i` is the one at `j`: none can straddle `j`. */
  lemma {:induction false} FindAfterFree(s: string, t: string, i: nat, j: nat)
    requires HeadUnique(t)
    requires i <= j <= |s|
    requires OccursAt(s, t, j)
    requires NotIn(t, s[i..j])
    ensures FindFrom(s, t, i) == Some(j)
  {
    forall k | i <= k < j
      ensures !OccursAt(s, t, k)
    {
      if k + |t| <= j {
        if OccursAt(s, t, k) {
          OccursBefore(s, t, i, j, k);
        }
      } else {
        assert s[j..j + |t|][0] == t[0];
        NoStraddle(s, t, k, j);
      }
    }
    FindFromIs(s, t, i, j);
  }

  /** Two strings without a non-overlapping `t` stay without it when joined,
      provided the second one starts with the first character of `t`. */
  lemma {:induction false} NotInAppend(t: string, x: string, y: string)
    requires HeadUnique(t)
    requires NotIn(t, x) && NotIn(t, y)
    requires |y| > 0 && y[0] == t[0]
    ensures NotIn(t, x + y)
  {
    var s := x + y;
    assert s[0..|x|] == x && s[|x|..|s|] == y;
    forall k | 0 <= k <= |s|
      ensures !OccursAt(s, t, k)
    {
      if k + |t| > |s| {
      } else if k + |t| <= |x| {
        SubSlice(s, 0, |x|, k, k + |t|);
        assert !OccursAt(x, t, k);
      } else if k >= |x| {
        SubSlice(s, |x|, |s|, k - |x|, k - |x| + |t|);
        assert !OccursAt(y, t, k - |x|);
      } else {
        assert s[|x|] == y[0];
        NoStraddle(s, t, k, |x|);
      }
    }
  }

  /** What lies between `i` and the first occurrence from `i` holds no occurrence. */
  lemma {:induction false} FindFromFree(s: string, t: string, i: nat, p: nat)
    requires |t| > 0 && i <= |s| && FindFrom(s, t, i) == Some(p)
    ensures NotIn(t, s[i..p])
  {
    FindFromSpec(s, t, i);
    forall k | 0 <= k <= p - i
      ensures !OccursAt(s[i..p], t, k)
    {
      if OccursAt(s[i..p], t, k) {
        OccursInSlice(s, t, i, p, k);
      }
    }
  }

  /** What precedes the first occurrence holds no occurrence. */
  lemma {:induction false} FindPrefixFree(s: string, t: string, p: nat)
    requires |t| > 0 && Find(s, t) == Some(p)
    ensures NotIn(t, s[..p])
  {
    assert s[..p] == s[0..p];
    FindFromFree(s, t, 0, p);
  }

  // ---------------------------------------------------------------------------
  // split and join
  // ---------------------------------------------------------------------------

  /** Python's `sep.join(parts)`. */
  function Join(parts: seq<string>, sep: string): string {
    if |parts| == 0 then ""
    else if |parts| == 1 then parts[0]
    else parts[0] + sep + Join(parts[1..], sep)
  }

  lemma {:induction false} JoinCons(a: string, rest: seq<string>, sep: string)
    requires |rest| >= 1
    ensures Join([a] + rest, sep) == a + sep + Join(rest, sep)
  {
    assert ([a] + rest)[1..] == rest;
  }

  /** Cutting out an occurrence and putting it back gives the string again. */
  lemma {:induction false} Reassemble(s: string, t: string, p: nat)
    requires OccursAt(s, t, p)
    ensures s[..p] + t + s[p + |t|..] == s
  {
    assert s == s[..p] + s[p..p + |t|] + s[p + |t|..];
  }

  /** Python's `s.split(sep)` for a non-empty `sep`: cut at each occurrence,
      scanning from the left and resuming after the separator. */
  function Split(s: string, sep: string): (parts: seq<string>)
    requires |sep| > 0
    decreases |s|
    ensures |parts| >= 1
  {
    match Find(s, sep)
    case None => [s]
    case Some(p) => [s[..p]] + Split(s[p + |sep|..], sep)
  }

  /** The split has a single piece exactly when the separator does not occur. */
  lemma {:induction false} SplitSingle(s: string, sep: string)
    requires |sep| > 0
    ensures |Split(s, sep)| == 1 <==> NotIn(sep, s)
  {
    match Find(s, sep)
    case None =>
      FindFromSpec(s, sep, 0);
    case Some(p) =>
      assert OccursAt(s, sep, p);
  }

  /** Joining the pieces of a split with its separator gives the string back. */
  lemma {:induction false} JoinSplit(s: string, sep: string)
    requires |sep| > 0
    ensures Join(Split(s, sep), sep) == s
    decreases |s|
  {
    match Find(s, sep)
    case None =>
    case Some(p) =>
      var rest := Split(s[p + |sep|..], sep);
      JoinSplit(s[p + |sep|..], sep);
      JoinCons(s[..p], rest, sep);
      Reassemble(s, sep, p);
  }

  /** No piece of a split holds the separator. */
  lemma {:induction false} SplitPiecesFree(s: string, sep: string)
    requires |sep| > 0
    ensures forall i :: 0 <= i < |Split(s, sep)| ==> NotIn(sep, Split(s, sep)[i])
    decreases |s|
  {
    match Find(s, sep)
    case None =>
      FindFromSpec(s, sep, 0);
    case Some(p) =>
      var rest := Split(s[p + |sep|..], sep);
      SplitPiecesFree(s[p + |sep|..], sep);
      FindPrefixFree(s, sep, p);
      assert Split(s, sep) == [s[..p]] + rest;
  }

  /** One step of `Split`: the piece before the first separator, then the rest. */
  lemma {:induction false} SplitAt(s: string, sep: string, i: nat)
    requires |sep| > 0 && Find(s, sep) == Some(i)
    ensures Split(s, sep) == [s[..i]] + Split(s[i + |sep|..], sep)
  {
  }

  /** Before the seam separator, `p + sep + q` has an occurrence exactly where `p` has one. */
  lemma {:induction false} SeamFind(p: string, sep: string, q: string)
    requires HeadUnique(sep)
    ensures Find(p + sep + q, sep) == (if Find(p, sep).None? then Some(|p|) else Find(p, sep))
  {
    var s := p + sep + q;
    assert s[0..|p|] == p;
    assert s[|p|..|p| + |sep|] == sep;
    match Find(p, sep)
    case None =>
      FindFromSpec(p, sep, 0);
      FindAfterFree(s, sep, 0, |p|);
    case Some(i) =>
      FindFromSpec(p, sep, 0);
      forall k | 0 <= k <= i
        ensures OccursAt(s, sep, k) == OccursAt(p, sep, k)
      {
        SubSlice(s, 0, |p|, k, k + |sep|);
      }
      FindFromIs(s, sep, 0, i);
  }

  /** When `p` holds no separator, the seam separator is the first cut. */
  lemma {:induction false} SplitSeamFirst(p: string, sep: string, q: string)
    requires HeadUnique(sep) && Find(p, sep).None?
    ensures Split(p + sep + q, sep) == [p] + Split(q, sep)
  {
    var s := p + sep + q;
    SeamFind(p, sep, q);
    SplitAt(s, sep, |p|);
    TakeConcat(p + sep, q, |p|);
    DropConcat(p + sep, q, |p| + |sep|);
  }

  /** Cutting `p + sep + q` inside `p`. */
  lemma {:induction false} SeamSlices(p: string, sep: string, q: string, i: nat)
    requires i + |sep| <= |p|
    ensures (p + sep + q)[i + |sep|..] == p[i + |sep|..] + sep + q
    ensures (p + sep + q)[..i] == p[..i]
  {
    DropConcat(p + sep, q, i + |sep|);
    DropConcat(p, sep, i + |sep|);
    TakeConcat(p + sep, q, i);
    TakeConcat(p, sep, i);
  }

  /** When `p` holds a separator at `i`, so does `p + sep + q`, first. */
  lemma {:induction false} SplitSeamLater(p: string, sep: string, q: string, i: nat)
    requires HeadUnique(sep) && Find(p, sep) == Some(i)
    ensures Split(p + sep + q, sep) == [p[..i]] + Split(p[i + |sep|..] + sep + q, sep)
  {
    SeamSlices(p, sep, q, i);
    SeamFind(p, sep, q);
    SplitAt(p + sep + q, sep, i);
  }

  /** Splitting a string that has a separator at the seam splits each side. */
  lemma {:induction false} SplitAppend(p: string, sep: string, q: string)
    requires HeadUnique(sep)
    ensures Split(p + sep + q, sep) == Split(p, sep) + Split(q, sep)
    decreases |p|
  {
    match Find(p, sep)
    case None =>
      SplitSeamFirst(p, sep, q);
    case Some(i) =>
      var p' := p[i + |sep|..];
      SplitSeamLater(p, sep, q, i);
      SplitAt(p, sep, i);
      SplitAppend(p', sep, q);
      ConcatAssoc([p[..i]], Split(p', sep), Split(q, sep));
  }

  /** Split undoes Join when the pieces hold no separator and the separator
      cannot overlap itself. */
  lemma {:induction false} SplitJoin(parts: seq<string>, sep: string)
    requires HeadUnique(sep)
    requires |parts| >= 1
    requires forall i :: 0 <= i < |parts| ==> NotIn(sep, parts[i])
    ensures Split(Join(parts, sep), sep) == parts
  {
    if |parts| > 1 {
      SplitJoin(parts[1..], sep);
      SplitAppend(parts[0], sep, Join(parts[1..], sep));
      assert parts == [parts[0]] + parts[1..];
    }
  }

  /** The last piece of a split is what follows the last separator. */
  lemma {:induction false} SplitLast(p: string, sep: string, q: string)
    requires HeadUnique(sep)
    requires NotIn(sep, q)
    ensures Split(p + sep + q, sep)[|Split(p + sep + q, sep)| - 1] == q
  {
    SplitAppend(p, sep, q);
  }

  /** The first piece of a join is a prefix and the last piece a suffix. */
  lemma {:induction false} JoinEnds(parts: seq<string>, sep: string)
    requires |parts| >= 1
    ensures |parts[0]| <= |Join(parts, sep)| && Join(parts, sep)[..|parts[0]|] == parts[0]
    ensures |parts[|parts| - 1]| <= |Join(parts, sep)|
    ensures Join(parts, sep)[|Join(parts, sep)| - |parts[|parts| - 1]|..] == parts[|parts| - 1]
  {
    if |parts| > 1 {
      JoinEnds(parts[1..], sep);
    }
  }

  // ---------------------------------------------------------------------------
  // strip
  // ---------------------------------------------------------------------------

  /** Python's `str.isspace` for one character: the code points that the
      argument-less `str.strip()` removes. */
  predicate IsSpace(c: char) {
    var n := c as int;
    (0x09 <= n <= 0x0D) || (0x1C <= n <= 0x20) || n == 0x85 || n == 0xA0 ||
    n == 0x1680 || (0x2000 <= n <= 0x200A) || n == 0x2028 || n == 0x2029 ||
    n == 0x202F || n == 0x205F || n == 0x3000
  }

  predicate AllSpace(s: string) {
    forall i :: 0 <= i < |s| ==> IsSpace(s[i])
  }

  /** Neither end of `s` is whitespace. */
  predicate Trimmed(s: string) {
    |s| == 0 || (!IsSpace(s[0]) && !IsSpace(s[|s| - 1]))
  }

  /** `s` is `r` with whitespace added on either side. */
  ghost predicate Padded(s: string, r: string) {
    exists a, b :: 0 <= a <= b <= |s| && s[a..b] == r && AllSpace(s[..a]) && AllSpace(s[b..])
  }

  /** The number of whitespace characters `s` starts with. */
  function LeadingSpace(s: string): (n: nat)
    ensures n <= |s|
    ensures n < |s| ==> !IsSpace(s[n])
  {
    if |s| > 0 && IsSpace(s[0]) then 1 + LeadingSpace(s[1..]) else 0
  }

  /** The leading run is all whitespace and stops at a non-space. */
  lemma {:induction false} LeadingSpaceSpec(s: string)
    ensures AllSpace(s[..LeadingSpace(s)])
  {
    if |s| > 0 && IsSpace(s[0]) {
      LeadingSpaceSpec(s[1..]);
      var n := LeadingSpace(s);
      assert s[..n] == [s[0]] + s[1..][..n - 1];
    }
  }

  /** The number of whitespace characters `s` ends with. */
  function TrailingSpace(s: string): (n: nat)
    ensures n <= |s|
    ensures n < |s| ==> !IsSpace(s[|s| - n - 1])
  {
    if |s| > 0 && IsSpace(s[|s| - 1]) then 1 + TrailingSpace(s[..|s| - 1]) else 0
  }

  /** The trailing run is all whitespace and stops at a non-space. */
  lemma {:induction false} TrailingSpaceSpec(s: string)
    ensures AllSpace(s[|s| - TrailingSpace(s)..])
  {
    if |s| > 0 && IsSpace(s[|s| - 1]) {
      var s' := s[..|s| - 1];
      TrailingSpaceSpec(s');
      var n := TrailingSpace(s);
      var u := s'[|s'| - (n - 1)..];
      var w := s[|s| - n..];
      forall k | 0 <= k < |w| ensures IsSpace(w[k]) {
        if k < |u| {
          assert w[k] == u[k];
        } else {
          assert w[k] == s[|s| - 1];
        }
      }
    }
  }

  /** Python's `s.strip()`. */
  function Strip(s: string): (r: string)
    ensures |r| <= |s|
    ensures Trimmed(r)
  {
    var lo := LeadingSpace(s);
    var w := s[lo..];
    var n := TrailingSpace(w);
    TrimmedBetween(s, lo, w, n);
    s[lo..|s| - n]
  }

  /** Cutting `lo` characters from the front and `n` from the back of `s`
      leaves a trimmed slice when both cuts stop at a non-space. */
  lemma {:induction false} TrimmedBetween(s: string, lo: nat, w: string, n: nat)
    requires lo <= |s| && w == s[lo..] && n <= |w|
    requires lo < |s| ==> !IsSpace(s[lo])
    requires n < |w| ==> !IsSpace(w[|w| - n - 1])
    ensures lo <= |s| - n && Trimmed(s[lo..|s| - n])
  {
    var hi := |s| - n;
    if lo < hi {
      assert w[|w| - n - 1] == s[hi - 1];
    }
    TrimmedSlice(s, lo, hi);
  }

  /** A slice whose end characters are not whitespace is trimmed. */
  lemma {:induction false} TrimmedSlice(s: string, lo: nat, hi: nat)
    requires lo <= hi <= |s|
    requires lo < hi ==> !IsSpace(s[lo]) && !IsSpace(s[hi - 1])
    ensures Trimmed(s[lo..hi])
  {
    if lo < hi {
      assert s[lo..hi][0] == s[lo];
      assert s[lo..hi][hi - lo - 1] == s[hi - 1];
    }
  }

  /** Strip keeps a slice of its argument. */
  lemma {:induction false} StripBounds(s: string) returns (lo: nat, hi: nat)
    ensures lo <= hi <= |s| && Strip(s) == s[lo..hi]
  {
    lo := LeadingSpace(s);
    hi := |s| - TrailingSpace(s[lo..]);
  }

  /** `s` is `Strip(s)` with whitespace on either side. */
  lemma {:induction false} StripPadded(s: string)
    ensures Padded(s, Strip(s))
  {
    var lo := LeadingSpace(s);
    var w := s[lo..];
    var hi := |s| - TrailingSpace(w);
    LeadingSpaceSpec(s);
    assert AllSpace(s[hi..]) by {
      TrailingSpaceSpec(w);
      assert s[hi..] == w[|w| - TrailingSpace(w)..];
    }
    assert s[lo..hi] == Strip(s);
    PaddedBy(s, lo, hi);
  }

  /** Whitespace on both sides of a slice makes it padded. */
  lemma {:induction false} PaddedBy(s: string, lo: nat, hi: nat)
    requires lo <= hi <= |s| && AllSpace(s[..lo]) && AllSpace(s[hi..])
    ensures Padded(s, s[lo..hi])
  {
  }

  /** A whitespace run followed by a non-space (or the end) is the leading run. */
  lemma {:induction false} LeadingSpaceIs(s: string, a: nat)
    requires a <= |s| && AllSpace(s[..a])
    requires a < |s| ==> !IsSpace(s[a])
    ensures LeadingSpace(s) == a
  {
    if a > 0 {
      assert s[..a][0] == s[0];
      assert s[1..][..a - 1] == s[..a][1..];
      LeadingSpaceIs(s[1..], a - 1);
    }
  }

  /** A whitespace run preceded by a non-space (or the start) is the trailing run. */
  lemma {:induction false} TrailingSpaceIs(s: string, n: nat)
    requires n <= |s| && AllSpace(s[|s| - n..])
    requires n < |s| ==> !IsSpace(s[|s| - n - 1])
    ensures TrailingSpace(s) == n
  {
    if n > 0 {
      assert s[|s| - n..][n - 1] == s[|s| - 1];
      var s' := s[..|s| - 1];
      var u := s'[|s'| - (n - 1)..];
      var w := s[|s| - n..];
      forall k | 0 <= k < |u|
        ensures IsSpace(u[k])
      {
        assert u[k] == w[k];
      }
      TrailingSpaceIs(s', n - 1);
    }
  }

  /** An all-whitespace string strips to the empty string. */
  lemma {:induction false} StripAllSpace(s: string)
    requires AllSpace(s)
    ensures Strip(s) == ""
  {
    LeadingSpaceIs(s, |s|);
  }

  /** A trimmed, non-empty `s[a..b]` between whitespace is what `Strip` keeps. */
  lemma {:induction false} StripBetween(s: string, a: nat, b: nat)
    requires a < b <= |s| && AllSpace(s[..a]) && AllSpace(s[b..])
    requires !IsSpace(s[a]) && !IsSpace(s[b - 1])
    ensures Strip(s) == s[a..b]
  {
    LeadingSpaceIs(s, a);
    var w := s[a..];
    assert w[|w| - (|s| - b)..] == s[b..];
    assert w[|w| - (|s| - b) - 1] == s[b - 1];
    TrailingSpaceIs(w, |s| - b);
  }

  /** Strip's result is unique: whatever trimmed string `s` pads is `Strip(s)`. */
  lemma {:induction false} StripUnique(s: string, r: string)
    requires Padded(s, r) && Trimmed(r)
    ensures Strip(s) == r
  {
    var a, b :| 0 <= a <= b <= |s| && s[a..b] == r && AllSpace(s[..a]) && AllSpace(s[b..]);
    StripUniqueAt(s, r, a, b);
  }

  /** Strip's result is the trimmed slice between two whitespace runs. */
  lemma {:induction false} StripUniqueAt(s: string, r: string, a: nat, b: nat)
    requires a <= b <= |s| && s[a..b] == r && AllSpace(s[..a]) && AllSpace(s[b..])
    requires Trimmed(r)
    ensures Strip(s) == r
  {
    if a == b {
      assert s == s[..a] + s[b..];
      StripAllSpace(s);
    } else {
      assert s[a] == r[0] && s[b - 1] == r[|r| - 1];
      StripBetween(s, a, b);
    }
  }

  /** Stripping twice strips nothing more. */
  lemma {:induction false} StripIdempotent(s: string)
    ensures Strip(Strip(s)) == Strip(s)
  {
    StripOfTrimmed(Strip(s));
  }

  /** A string with no whitespace at either end strips to itself. */
  lemma {:induction false} StripOfTrimmed(s: string)
    requires Trimmed(s)
    ensures Strip(s) == s
  {
    assert s[0..|s|] == s && s[..0] == [] && s[|s|..] == [];
    StripUnique(s, s);
  }

  /** What `Strip` returns lies inside its argument, so it holds no `t` the
      argument does not hold. */
  lemma {:induction false} StripNotIn(t: string, s: string)
    requires NotIn(t, s)
    ensures NotIn(t, Strip(s))
  {
    StripPadded(s);
    var a, b :| 0 <= a <= b <= |s| && s[a..b] == Strip(s) && AllSpace(s[..a]) && AllSpace(s[b..]);
    NotInSlice(t, s, a, b);
  }

  /** An occurrence in `s[i..]` at `k` is an occurrence in `s` at `i + k`. */
  lemma {:induction false} SuffixOccurs(s: string, t: string, i: nat)
    requires i <= |s|
    ensures forall k :: 0 <= k <= |s| - i ==> (OccursAt(s[i..], t, k) <==> OccursAt(s, t, i + k))
  {
    forall k | 0 <= k <= |s| - i
      ensures OccursAt(s[i..], t, k) <==> OccursAt(s, t, i + k)
    {
      if k + |t| <= |s| - i {
        SubSlice(s, i, |s|, k, k + |t|);
      }
    }
  }

  /** Searching a suffix finds what searching from its start finds, shifted. */
  lemma {:induction false} FindInSuffixSome(s: string, t: string, i: nat, q: nat)
    requires i <= |s| && FindFrom(s, t, i) == Some(q)
    ensures i <= q && Find(s[i..], t) == Some(q - i)
  {
    SuffixOccurs(s, t, i);
    FindFromSpec(s, t, i);
    FindFromIs(s[i..], t, 0, q - i);
  }

  /** Searching a suffix finds nothing when searching from its start does not. */
  lemma {:induction false} FindInSuffixNone(s: string, t: string, i: nat)
    requires i <= |s| && FindFrom(s, t, i).None?
    ensures Find(s[i..], t).None?
  {
    SuffixOccurs(s, t, i);
    FindFromSpec(s, t, i);
    FindFromSpec(s[i..], t, 0);
  }

  // ---------------------------------------------------------------------------
  // the pieces the answer extractors keep
  // ---------------------------------------------------------------------------

  /** The last piece of `text.split(sep)`, Python's `[-1]`. */
  function LastPiece(text: string, sep: string): string
    requires |sep| > 0
  {
    Split(text, sep)[|Split(text, sep)| - 1]
  }

  /** `text.split(a)[-1].split(b)[0]`: what follows the last `a`, up to the
      first `b` after it (or to the end when there is none). */
  function LastFirst(text: string, a: string, b: string): string
    requires |a| > 0 && |b| > 0
  {
    Split(LastPiece(text, a), b)[0]
  }

  /** The stripped piece after the last `a`, cut at the first `b`, holds
      neither `a` nor `b`. */
  lemma {:induction false} LastFirstStripped(text: string, a: string, b: string)
    requires |a| > 0 && |b| > 0
    ensures NotIn(a, Strip(LastFirst(text, a, b)))
    ensures NotIn(b, Strip(LastFirst(text, a, b)))
  {
    LastFirstFree(text, a, b);
    StripNotInBoth(a, b, LastFirst(text, a, b));
  }

  /** Stripping creates neither of two absent strings. */
  lemma {:induction false} StripNotInBoth(a: string, b: string, s: string)
    requires NotIn(a, s) && NotIn(b, s)
    ensures NotIn(a, Strip(s)) && NotIn(b, Strip(s))
  {
    StripNotIn(a, s);
    StripNotIn(b, s);
  }

  /** The first `b`-piece of the last `a`-piece of `text` holds neither
      separator. */
  lemma {:induction false} LastFirstFree(text: string, a: string, b: string)
    requires |a| > 0 && |b| > 0
    ensures NotIn(a, LastFirst(text, a, b))
    ensures NotIn(b, LastFirst(text, a, b))
  {
    SplitLastFree(text, a);
    SplitFirstPrefix(LastPiece(text, a), b);
    NotInPrefix(a, LastPiece(text, a), LastFirst(text, a, b));
  }

  /** The first `b`-piece of the last `a`-piece of `text` sits in `text`
      where the last `a`-piece starts. */
  lemma {:induction false} LastFirstPiece(text: string, a: string, b: string)
    requires |a| > 0 && |b| > 0
    ensures |LastPiece(text, a)| <= |text|
    ensures OccursAt(text, LastFirst(text, a, b), |text| - |LastPiece(text, a)|)
  {
    SplitLastSuffix(text, a);
    SplitFirstPrefix(LastPiece(text, a), b);
    SubSlice(text, |text| - |LastPiece(text, a)|, |text|, 0, |LastFirst(text, a, b)|);
  }

  /** The last piece of a split holds no separator. */
  lemma {:induction false} SplitLastFree(text: string, sep: string)
    requires |sep| > 0
    ensures NotIn(sep, LastPiece(text, sep))
  {
    SplitPiecesFree(text, sep);
  }

  /** The last piece of a split is a suffix of the text. */
  lemma {:induction false} SplitLastSuffix(text: string, sep: string)
    requires |sep| > 0
    ensures |LastPiece(text, sep)| <= |text| && text[|text| - |LastPiece(text, sep)|..] == LastPiece(text, sep)
  {
    var parts := Split(text, sep);
    JoinSplit(text, sep);
    JoinEnds(parts, sep);
    LastPieceIs(text, sep, parts);
  }

  /** LastPiece is the last element of the split. */
  lemma {:induction false} LastPieceIs(text: string, sep: string, parts: seq<string>)
    requires |sep| > 0 && parts == Split(text, sep)
    ensures LastPiece(text, sep) == parts[|parts| - 1]
  {
  }

  /** The first piece of a split is a separator-free prefix of the text. */
  lemma {:induction false} SplitFirstPrefix(text: string, sep: string)
    requires |sep| > 0
    ensures NotIn(sep, Split(text, sep)[0])
    ensures |Split(text, sep)[0]| <= |text| && text[0..|Split(text, sep)[0]|] == Split(text, sep)[0]
  {
    JoinSplit(text, sep);
    SplitPiecesFree(text, sep);
    JoinEnds(Split(text, sep), sep);
    assert text[0..|Split(text, sep)[0]|] == text[..|Split(text, sep)[0]|];
  }

  /** Stripping a piece of `text` leaves a piece of `text`. */
  lemma {:induction false} StripInfix(text: string, field: string, off: nat)
    requires OccursAt(text, field, off)
    ensures Infix(Strip(field), text)
  {
    var x, y := StripBounds(field);
    assert text[off..off + |field|] == field;
    SubSlice(text, off, off + |field|, x, y);
    assert OccursAt(text, Strip(field), off + x);
  }

  /** After the last `a`, up to the first `b`: when `x` holds neither
      separator and what follows `b` holds no `a`, the piece is `x`. That `b`
      starts like `a` keeps an `a` from straddling the end of `x`. */
  lemma {:induction false} LastFirstOf(prefix: string, a: string, x: string, b: string, tail: string)
    requires HeadUnique(a) && HeadUnique(b) && b[0] == a[0]
    requires NotIn(a, x) && NotIn(b, x) && NotIn(a, b + tail)
    ensures LastFirst(prefix + a + x + b + tail, a, b) == x
  {
    var q := x + (b + tail);
    ConcatAssoc(prefix + a + x, b, tail);
    ConcatAssoc(prefix + a, x, b + tail);
    NotInAppend(a, x, b + tail);
    SplitLast(prefix, a, q);
    FirstPieceBefore(x, b, tail);
  }

  /** Splitting `x + b + tail` at `b`, for `x` without `b`, cuts off `x` first. */
  lemma {:induction false} FirstPieceBefore(x: string, b: string, tail: string)
    requires HeadUnique(b) && NotIn(b, x)
    ensures Split(x + (b + tail), b)[0] == x
  {
    var q := x + (b + tail);
    assert q[0..|x|] == x;
    assert q[|x|..|x| + |b|] == b;
    FindAfterFree(q, b, 0, |x|);
    SplitAt(q, b, |x|);
    assert q[..|x|] == x;
  }

  /** The second piece of a split runs from the end of the first separator to
      the next one found after it. */
  lemma {:induction false} SecondPieceTo(text: string, sep: string, p: nat, q: nat)
    requires |sep| > 0 && Find(text, sep) == Some(p)
    requires p + |sep| <= |text| && FindFrom(text, sep, p + |sep|) == Some(q)
    ensures p + |sep| <= q <= |text| && |Split(text, sep)| >= 2 && Split(text, sep)[1] == text[p + |sep|..q]
  {
    var start := p + |sep|;
    RestFirstPiece(text, sep, start, q);
    SecondOfRest(text, sep, p);
  }

  /** The first piece of `text[i..]` runs up to the first separator from `i`. */
  lemma {:induction false} RestFirstPiece(text: string, sep: string, i: nat, q: nat)
    requires |sep| > 0 && i <= |text| && FindFrom(text, sep, i) == Some(q)
    ensures i <= q <= |text| && Split(text[i..], sep)[0] == text[i..q]
  {
    FindInSuffixSome(text, sep, i, q);
    FirstPieceTo(text[i..], sep, q - i);
    TakeOfDrop(text, i, q);
  }

  lemma {:induction false} TakeOfDrop(s: string, i: nat, j: nat)
    requires i <= j <= |s|
    ensures s[i..][..j - i] == s[i..j]
  {
  }

  /** With a single separator, the second piece is everything after it. */
  lemma {:induction false} SecondPieceToEnd(text: string, sep: string, p: nat)
    requires |sep| > 0 && Find(text, sep) == Some(p)
    requires p + |sep| <= |text| && FindFrom(text, sep, p + |sep|).None?
    ensures |Split(text, sep)| >= 2 && Split(text, sep)[1] == text[p + |sep|..]
  {
    var start := p + |sep|;
    SecondOfRest(text, sep, p);
    FindInSuffixNone(text, sep, start);
    FirstPieceWhole(text[start..], sep);
  }

  /** The second piece of a split is the first piece of what follows the
      first separator. */
  lemma {:induction false} SecondOfRest(text: string, sep: string, p: nat)
    requires |sep| > 0 && Find(text, sep) == Some(p)
    ensures |Split(text, sep)| >= 2 && Split(text, sep)[1] == Split(text[p + |sep|..], sep)[0]
  {
    SplitAt(text, sep, p);
  }

  /** The first piece of a split runs up to the first separator... */
  lemma {:induction false} FirstPieceTo(s: string, sep: string, q: nat)
    requires |sep| > 0 && Find(s, sep) == Some(q)
    ensures Split(s, sep)[0] == s[..q]
  {
  }

  /** ...or is the whole text when there is none. */
  lemma {:induction false} FirstPieceWhole(s: string, sep: string)
    requires |sep| > 0 && Find(s, sep).None?
    ensures Split(s, sep)[0] == s
  {
  }
}
