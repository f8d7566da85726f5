/**
  `text.split(/(<kbd>.*?<\/kbd>)/g)`, as the ECMAScript
  `RegExp.prototype[@@split]` algorithm runs it.  That algorithm ignores the
  `g` flag: it tries a sticky copy of the pattern at each index in turn, and
  the pattern's one capture group puts each matched span into the result.

  The split walks the string left to right.  At each index it tries the
  pattern there: `<kbd>`, then as few non-line-terminator characters as
  possible, then `</kbd>`.  A failure moves on by one index; a success emits
  the text since the previous match and the captured span, and resumes right
  after the span.
*/
module KbdScanner {
  import opened Js

  const Open: string := "<kbd>"
  const Close: string := "</kbd>"

  /** The characters `.` does not match without the `s` flag. */
  predicate IsLineTerminator(c: char) {
    c == '\n' || c == '\r' || c == '\U{2028}' || c == '\U{2029}'
  }

  /** `w` occurs in `s` starting at index `j`. */
  predicate OccursAt(s: string, j: int, w: string) {
    0 <= j && j + |w| <= |s| && s[j..j + |w|] == w
  }

  /** `<kbd>.*?<\/kbd>` matches `s[q..e]` when tried at index `q`: an opening
      tag at `q`, a closing tag ending at `e`, and in between no line
      terminator and no earlier closing tag (the lazy `*?` stops at the
      first one). */
  ghost predicate IsMatch(s: string, q: int, e: int) {
    && 0 <= q
    && q + |Open| + |Close| <= e <= |s|
    && OccursAt(s, q, Open)
    && OccursAt(s, e - |Close|, Close)
    && (forall k :: q + |Open| <= k < e - |Close| ==> !OccursAt(s, k, Close))
    && (forall k :: q + |Open| <= k < e - |Close| ==> !IsLineTerminator(s[k]))
  }

  /** No attempt of the pattern at an index in `[a, b)` succeeds. */
  ghost predicate NoMatchIn(s: string, a: int, b: int) {
    forall j, e :: a <= j < b ==> !IsMatch(s, j, e)
  }

  /** The lazy `.*?<\/kbd>` tail, tried from index `j`: the index of the
      first closing tag at or after `j`, unless a line terminator comes
      before it. */
  function FindClose(s: string, j: nat): (r: Option<nat>)
    requires j <= |s|
    ensures r.Some? ==> j <= r.value && OccursAt(s, r.value, Close)
    ensures r.Some? ==> forall k :: j <= k < r.value ==> !OccursAt(s, k, Close) && !IsLineTerminator(s[k])
    ensures r.None? ==> forall k :: j <= k && OccursAt(s, k, Close) ==> exists m :: j <= m < k && IsLineTerminator(s[m])
    decreases |s| - j
  {
    if OccursAt(s, j, Close) then Some(j)
    else if j == |s| || IsLineTerminator(s[j]) then None
    else FindClose(s, j + 1)
  }

  /** One sticky attempt of the pattern at index `q`: the end of the match,
      if there is one. */
  function MatchAt(s: string, q: nat): (r: Option<nat>)
    requires q <= |s|
    ensures r.Some? ==> IsMatch(s, q, r.value)
    ensures r.None? ==> forall e :: !IsMatch(s, q, e)
  {
    if OccursAt(s, q, Open) then
      match FindClose(s, q + |Open|)
      case Some(k) => Some(k + |Close|)
      case None => None
    else None
  }

  /** The lazy quantifier makes the match at an index unique, and the
      first index at which the pattern succeeds is unique too: a match at
      `q` preceded by no match since `p` is THE first match from `p`. */
  lemma FirstMatchUnique(s: string, p: int, q1: int, e1: int, q2: int, e2: int)
    requires p <= q1 && NoMatchIn(s, p, q1) && IsMatch(s, q1, e1)
    requires p <= q2 && NoMatchIn(s, p, q2) && IsMatch(s, q2, e2)
    ensures q1 == q2 && e1 == e2
  {
  }

  /** The declarative description of a split of `s[p..]`: an odd number of
      parts alternating between text and matched spans, where each span is
      the match at the first index (at or after the end of the previous span)
      where the pattern succeeds, and the last text holds no match at all. */
  ghost predicate LeftmostFrom(s: string, p: nat, parts: seq<string>)
    requires p <= |s|
    decreases |parts|
  {
    if |parts| == 0 then false
    else if |parts| == 1 then parts[0] == s[p..] && NoMatchIn(s, p, |s|)
    else
      && |parts| >= 3
      && GapThenMatch(s, p, parts[0], parts[1])
      && LeftmostFrom(s, p + |parts[0]| + |parts[1]|, parts[2..])
  }

  /** `gap` starts at `p`, holds no match, and is followed by the match
      `span`. */
  ghost predicate GapThenMatch(s: string, p: nat, gap: string, span: string) {
    var q := p + |gap|;
    var e := q + |span|;
    && e <= |s|
    && gap == s[p..q]
    && span == s[q..e]
    && NoMatchIn(s, p, q)
    && IsMatch(s, q, e)
  }

  /** Extending a split of `s[e..]` at the front by the first match from
      `p` and the text before it. */
  lemma LeftmostCons(s: string, p: nat, q: nat, e: nat, rest: seq<string>)
    requires p <= q <= e <= |s|
    requires IsMatch(s, q, e) && LeftmostFrom(s, e, rest)
    ensures NoMatchIn(s, p, q) ==> LeftmostFrom(s, p, [s[p..q], s[q..e]] + rest)
  {
    var parts := [s[p..q], s[q..e]] + rest;
    Cons2(s[p..q], s[q..e], rest);
    if NoMatchIn(s, p, q) {
      assert GapThenMatch(s, p, s[p..q], s[q..e]);
    }
  }

  /** The text after the last match is the last part. */
  lemma LeftmostLast(s: string, p: nat)
    requires p <= |s|
    ensures NoMatchIn(s, p, |s|) ==> LeftmostFrom(s, p, [s[p..]])
  {
  }

  /** A failed attempt at `q` extends a match-free stretch by one index. */
  lemma NoMatchExtend(s: string, p: nat, q: nat)
    requires p <= q && forall e :: !IsMatch(s, q, e)
    ensures NoMatchIn(s, p, q) ==> NoMatchIn(s, p, q + 1)
  {
  }

  /** The loop of the split algorithm: `p` is the end of the last match,
      `q` the next index to try. */
  function Scan(s: string, p: nat, q: nat): seq<string>
    requires p <= q <= |s|
    decreases |s| - q
  {
    if q == |s| then [s[p..]]
    else
      match MatchAt(s, q)
      case None => Scan(s, p, q + 1)
      case Some(e) => [s[p..q], s[q..e]] + Scan(s, e, e)
  }

  /** `text.split(/(<kbd>.*?<\/kbd>)/g)`. */
  function Split(s: string): seq<string> {
    if |s| == 0 then
      // The empty string splits into nothing if the pattern matches it,
      // and into itself otherwise.
      if MatchAt(s, 0).Some? then [] else [s]
    else Scan(s, 0, 0)
  }

  /** The loop keeps its invariant: with no match between `p` and `q`, it
      produces the leftmost split of `s[p..]`. */
  lemma {:induction false} ScanLeftmost(s: string, p: nat, q: nat)
    requires p <= q <= |s|
    ensures NoMatchIn(s, p, q) ==> LeftmostFrom(s, p, Scan(s, p, q))
    decreases |s| - q
  {
    if q == |s| {
      LeftmostLast(s, p);
    } else {
      match MatchAt(s, q)
      case None =>
        NoMatchExtend(s, p, q);
        ScanLeftmost(s, p, q + 1);
      case Some(e) =>
        ScanLeftmost(s, e, e);
        LeftmostCons(s, p, q, e, Scan(s, e, e));
    }
  }

  /** The split of any string is a leftmost split. */
  lemma SplitLeftmost(s: string)
    ensures LeftmostFrom(s, 0, Split(s))
  {
    if |s| == 0 {
      LeftmostLast(s, 0);
    } else {
      ScanLeftmost(s, 0, 0);
    }
  }

  /** A split of `s[p..]` has a single part exactly when the pattern
      matches nowhere from `p` on. */
  lemma LeftmostSingle(s: string, p: nat, parts: seq<string>)
    requires p <= |s| && LeftmostFrom(s, p, parts)
    ensures |parts| == 1 <==> NoMatchIn(s, p, |s|)
  {
    if |parts| != 1 {
      var q := p + |parts[0]|;
      assert IsMatch(s, q, q + |parts[1]|);
    }
  }

  /** The first two parts of a longer split: the text before the first
      match from `p`, and that match. */
  lemma LeftmostHead(s: string, p: nat, parts: seq<string>) returns (q: nat, e: nat)
    requires p <= |s| && LeftmostFrom(s, p, parts) && |parts| != 1
    ensures p <= q <= e <= |s| && |parts| >= 3
    ensures parts[0] == s[p..q] && parts[1] == s[q..e]
    ensures NoMatchIn(s, p, q) && IsMatch(s, q, e)
    ensures LeftmostFrom(s, e, parts[2..])
  {
    q := p + |parts[0]|;
    e := q + |parts[1]|;
  }

  /** There is only one leftmost split. */
  lemma {:induction false} LeftmostUnique(s: string, p: nat, a: seq<string>, b: seq<string>)
    requires p <= |s|
    requires LeftmostFrom(s, p, a) && LeftmostFrom(s, p, b)
    ensures a == b
    decreases |a|
  {
    LeftmostSingle(s, p, a);
    LeftmostSingle(s, p, b);
    if |a| != 1 {
      var qa, ea := LeftmostHead(s, p, a);
      var qb, eb := LeftmostHead(s, p, b);
      FirstMatchUnique(s, p, qa, ea, qb, eb);
      LeftmostUnique(s, ea, a[2..], b[2..]);
      SeqCons2(a);
      SeqCons2(b);
    }
  }

  lemma Cons2<T>(x: T, y: T, rest: seq<T>)
    ensures var xs := [x, y] + rest; |xs| == |rest| + 2 && xs[0] == x && xs[1] == y && xs[2..] == rest
  {
  }

  lemma SeqCons2<T>(a: seq<T>)
    requires |a| >= 2
    ensures a == [a[0], a[1]] + a[2..]
  {
  }

  /** `Split` is characterised by the declarative description: its result
      is a leftmost split of the input, and the only one. */
  lemma SplitIsLeftmost(s: string, parts: seq<string>)
    ensures parts == Split(s) <==> LeftmostFrom(s, 0, parts)
  {
    SplitLeftmost(s);
    if LeftmostFrom(s, 0, parts) {
      LeftmostUnique(s, 0, parts, Split(s));
    }
  }

  // ---------------------------------------------------------------------
  // Properties of the parts on their own

  /** A whole string that is one matched span. */
  ghost predicate IsKbdSpan(t: string) {
    IsMatch(t, 0, |t|)
  }

  /** A string in which the pattern matches nowhere. */
  ghost predicate SpanFree(t: string) {
    forall j, e :: !IsMatch(t, j, e)
  }

  lemma OccursInSlice(s: string, a: int, b: int, k: int, w: string)
    requires 0 <= a <= b <= |s| && 0 <= k && k + |w| <= b - a
    ensures OccursAt(s[a..b], k, w) <==> OccursAt(s, a + k, w)
  {
    var u, v := s[a..b][k..k + |w|], s[a + k..a + k + |w|];
    assert |u| == |v|;
    assert forall i :: 0 <= i < |u| ==> u[i] == v[i];
    assert u == v;
  }

  /** A match inside a slice is a match of the whole string, and back:
      the pattern looks at nothing beyond the span it matches. */
  lemma MatchInSlice(s: string, a: int, b: int, j: int, e: int)
    requires 0 <= a <= b <= |s| && 0 <= j && e <= b - a
    ensures IsMatch(s[a..b], j, e) <==> IsMatch(s, a + j, a + e)
  {
    var t := s[a..b];
    if j + |Open| + |Close| <= e {
      OccursInSlice(s, a, b, j, Open);
      OccursInSlice(s, a, b, e - |Close|, Close);
      if IsMatch(s, a + j, a + e) {
        forall k | j + |Open| <= k < e - |Close|
          ensures !OccursAt(t, k, Close) && !IsLineTerminator(t[k])
        {
          OccursInSlice(s, a, b, k, Close);
          assert a + j + |Open| <= a + k < a + e - |Close|;
        }
      }
      if IsMatch(t, j, e) {
        forall k | a + j + |Open| <= k < a + e - |Close|
          ensures !OccursAt(s, k, Close) && !IsLineTerminator(s[k])
        {
          OccursInSlice(s, a, b, k - a, Close);
          assert j + |Open| <= k - a < e - |Close|;
          assert t[k - a] == s[k];
        }
      }
    }
  }

  /** A leftmost split has an odd number of parts and joins back to the
      text it splits. */
  lemma {:induction false} LeftmostJoins(s: string, p: nat, parts: seq<string>)
    requires p <= |s|
    requires LeftmostFrom(s, p, parts)
    ensures |parts| % 2 == 1
    ensures Concat(parts) == s[p..]
    decreases |parts|
  {
    if |parts| != 1 {
      var q, e := LeftmostHead(s, p, parts);
      LeftmostJoins(s, e, parts[2..]);
      ConcatCons2(parts);
      SliceJoin(s, p, q, e);
    }
  }

  /** The first part of a leftmost split contains no match. */
  lemma LeftmostGap(s: string, p: nat, parts: seq<string>)
    requires p <= |s| && LeftmostFrom(s, p, parts)
    ensures SpanFree(parts[0])
  {
    if |parts| == 1 {
      GapIsSpanFree(s, p, |s|);
      assert parts[0] == s[p..|s|];
    } else {
      var q, e := LeftmostHead(s, p, parts);
      GapIsSpanFree(s, p, q);
    }
  }

  /** The second part of a longer leftmost split is a matched span. */
  lemma LeftmostSpan(s: string, p: nat, parts: seq<string>)
    requires p <= |s| && LeftmostFrom(s, p, parts) && |parts| != 1
    ensures IsKbdSpan(parts[1])
  {
    var q, e := LeftmostHead(s, p, parts);
    MatchInSlice(s, q, e, 0, e - q);
    assert parts[1] == s[q..e] && |parts[1]| == e - q;
  }

  /** In a leftmost split an odd-indexed part is a matched span and an
      even-indexed one contains no match. */
  lemma {:induction false} LeftmostPart(s: string, p: nat, parts: seq<string>, i: nat)
    requires p <= |s|
    requires LeftmostFrom(s, p, parts)
    requires i < |parts|
    ensures i % 2 == 1 ==> IsKbdSpan(parts[i])
    ensures i % 2 == 0 ==> SpanFree(parts[i])
    decreases i
  {
    if i == 0 {
      LeftmostGap(s, p, parts);
    } else if i == 1 {
      LeftmostSpan(s, p, parts);
    } else {
      var q, e := LeftmostHead(s, p, parts);
      LeftmostPart(s, e, parts[2..], i - 2);
      assert parts[i] == parts[2..][i - 2];
    }
  }

  lemma SliceJoin(s: string, p: nat, q: nat, e: nat)
    requires p <= q <= e <= |s|
    ensures s[p..q] + s[q..e] + s[e..] == s[p..]
  {
  }

  lemma ConcatCons2(parts: seq<string>)
    requires |parts| >= 2
    ensures Concat(parts) == parts[0] + parts[1] + Concat(parts[2..])
  {
    assert parts[1..][1..] == parts[2..];
  }

  lemma GapIsSpanFree(s: string, p: int, q: int)
    requires 0 <= p <= q <= |s| && NoMatchIn(s, p, q)
    ensures SpanFree(s[p..q])
  {
    forall j, e
      ensures !IsMatch(s[p..q], j, e)
    {
      if 0 <= j && e <= q - p {
        MatchInSlice(s, p, q, j, e);
      }
    }
  }

  /** The split gives back its input when its parts are joined. */
  lemma SplitRoundTrip(s: string)
    ensures Concat(Split(s)) == s
  {
    SplitLeftmost(s);
    LeftmostJoins(s, 0, Split(s));
  }

  /** The shape of a split: at least one part and an odd number of them,
      `2k + 1` for `k` matches; odd-indexed parts are exactly the matched
      spans and even-indexed parts contain no match. */
  lemma SplitShape(s: string)
    ensures |Split(s)| % 2 == 1
    ensures forall i :: 0 <= i < |Split(s)| ==> (i % 2 == 1 <==> IsKbdSpan(Split(s)[i]))
    ensures forall i :: 0 <= i < |Split(s)| && i % 2 == 0 ==> SpanFree(Split(s)[i])
  {
    var parts := Split(s);
    SplitLeftmost(s);
    LeftmostJoins(s, 0, parts);
    forall i | 0 <= i < |parts|
      ensures i % 2 == 1 ==> IsKbdSpan(parts[i])
      ensures i % 2 == 0 ==> SpanFree(parts[i]) && !IsKbdSpan(parts[i])
    {
      LeftmostPart(s, 0, parts, i);
    }
  }

  /** A matched span: tags at both ends that do not overlap, and an inner
      text holding no closing tag and no line terminator, though it may
      hold opening tags. */
  lemma SpanInner(t: string)
    requires IsKbdSpan(t)
    ensures |t| >= |Open| + |Close|
    ensures StartsWith(t, Open) && EndsWith(t, Close)
    ensures var inner := t[|Open|..|t| - |Close|];
      && (forall k :: !OccursAt(inner, k, Close))
      && (forall k :: 0 <= k < |inner| ==> !IsLineTerminator(inner[k]))
  {
    var inner := t[|Open|..|t| - |Close|];
    forall k
      ensures !OccursAt(inner, k, Close)
    {
      if 0 <= k && k + |Close| <= |inner| {
        OccursInSlice(t, |Open|, |t| - |Close|, k, Close);
      }
    }
    forall k | 0 <= k < |inner|
      ensures !IsLineTerminator(inner[k])
    {
      assert inner[k] == t[|Open| + k];
    }
  }
}
