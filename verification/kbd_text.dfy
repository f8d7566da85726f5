/**
  `parseTextWithKbd`: a tooltip string becomes a sequence of segments, one
  per part of the `<kbd>` split, each either plain text or an inline key
  token showing the text between the tags.
*/
module KbdText {
  import opened Js
  import opened KbdScanner

  /** What one split part renders as: the part itself, or a `<kbd>` element
      holding `content`. */
  datatype Segment = Plain(text: string) | Kbd(content: string)

  /** The part a segment came from: a key token is put back between its
      tags. */
  function Source(seg: Segment): string {
    match seg
    case Plain(t) => t
    case Kbd(c) => Open + c + Close
  }

  /** The tags of a part that starts with `<kbd>` and ends with `</kbd>`
      cannot overlap, so such a part is at least eleven characters long. */
  lemma TagsDoNotOverlap(part: string)
    requires StartsWith(part, Open) && EndsWith(part, Close)
    ensures |part| >= |Open| + |Close|
  {
    // The closing tag's `<` cannot fall inside the opening tag, whose only
    // `<` is its first character, and the two tags disagree right after it.
    var k := |part| - |Close|;
    assert part[k] == part[k..][0] == '<';
    assert part[k + 1] == part[k..][1] == '/';
    assert forall i :: 0 <= i < |Open| ==> part[i] == part[..|Open|][i];
  }

  /** One part of the split, as the `map` callback classifies it: a part
      that starts with `<kbd>` and ends with `</kbd>` becomes a key token
      showing `part.slice(5, -6)`, anything else stays plain text. */
  function Classify(part: string): (seg: Segment)
    ensures seg.Kbd? <==> StartsWith(part, Open) && EndsWith(part, Close)
    ensures seg.Kbd? ==> |part| >= |Open| + |Close| && seg.content == part[|Open|..|part| - |Close|]
    ensures Source(seg) == part
  {
    if StartsWith(part, Open) && EndsWith(part, Close) then
      TagsDoNotOverlap(part);
      var content := Slice(part, 5, -6);
      assert Open + content + Close == part by {
        assert part == part[..|Open|] + part[|Open|..|part| - |Close|] + part[|part| - |Close|..];
      }
      Kbd(content)
    else
      Plain(part)
  }

  /** `parseTextWithKbd(text)`: one segment per split part, in order. */
  function Parse(text: string): (segs: seq<Segment>)
    ensures |segs| == |Split(text)|
    ensures forall i :: 0 <= i < |segs| ==> Source(segs[i]) == Split(text)[i]
  {
    var parts := Split(text);
    seq(|parts|, i requires 0 <= i < |parts| => Classify(parts[i]))
  }

  /** The text a sequence of segments was parsed from. */
  function Unparse(segs: seq<Segment>): string {
    if |segs| == 0 then "" else Source(segs[0]) + Unparse(segs[1..])
  }

  lemma {:induction false} UnparseIsConcat(segs: seq<Segment>, parts: seq<string>)
    requires |segs| == |parts|
    requires forall i :: 0 <= i < |segs| ==> Source(segs[i]) == parts[i]
    ensures Unparse(segs) == Concat(parts)
    decreases |segs|
  {
    if |segs| > 0 {
      UnparseIsConcat(segs[1..], parts[1..]);
    }
  }

  /** Round trip: joining the segments, with each key token put back
      between `<kbd>` and `</kbd>`, gives back the input exactly. */
  lemma ParseRoundTrip(text: string)
    ensures Unparse(Parse(text)) == text
  {
    UnparseIsConcat(Parse(text), Split(text));
    SplitRoundTrip(text);
  }

  /** Every matched span becomes a key token whose content lies strictly
      between the tags and holds no closing tag and no line terminator.
      Segments are therefore key tokens at every odd index. */
  lemma MatchedSpansAreKeys(text: string, i: int)
    requires 0 <= i < |Parse(text)| && i % 2 == 1
    ensures Parse(text)[i].Kbd?
    ensures var c := Parse(text)[i].content;
      && Open + c + Close == Split(text)[i]
      && (forall k :: !OccursAt(c, k, Close))
      && (forall k :: 0 <= k < |c| ==> !IsLineTerminator(c[k]))
  {
    SplitShape(text);
    SpanInner(Split(text)[i]);
  }

  /** A segment at an even index is text between matches.  It is plain
      text unless it happens to start with `<kbd>` and end with `</kbd>`:
      the check on the part does not know whether the pattern matched it. */
  lemma GapsArePlainUnlessTagged(text: string, i: int)
    requires 0 <= i < |Parse(text)| && i % 2 == 0
    ensures var part := Split(text)[i];
      Parse(text)[i] == if StartsWith(part, Open) && EndsWith(part, Close)
        then Kbd(part[|Open|..|part| - |Close|]) else Plain(part)
  {
  }

  // ---------------------------------------------------------------------
  // Worked examples

  /** A failed attempt at an index whose first two characters cannot start
      `<kbd>`. */
  lemma ScanSkip(s: string, p: nat, q: nat)
    requires p <= q < |s|
    requires s[q] != '<' || (q + 1 < |s| && s[q + 1] != 'k')
    ensures Scan(s, p, q) == Scan(s, p, q + 1)
  {
    if q + |Open| <= |s| {
      assert s[q..q + |Open|][0] == s[q];
      assert s[q..q + |Open|][1] == s[q + 1];
    }
  }

  /** Failed attempts across a stretch holding no `<` at all. */
  lemma {:induction false} ScanSkipNoLt(s: string, p: nat, q: nat, r: nat)
    requires p <= q <= r <= |s|
    requires '<' !in s[q..r]
    ensures Scan(s, p, q) == Scan(s, p, r)
    decreases r - q
  {
    if q < r {
      assert s[q] == s[q..r][0];
      assert s[q + 1..r] == s[q..r][1..];
      ScanSkip(s, p, q);
      ScanSkipNoLt(s, p, q + 1, r);
    }
  }

  const LazyExample: string := "<kbd>a</kbd>b</kbd>"

  lemma LazyExampleMatch()
    ensures MatchAt(LazyExample, 0) == Some(12)
  {
    var s := LazyExample;
    assert s[5..11][0] == 'a';
    assert s[6..12] == Close;
    assert FindClose(s, 6) == Some(6);
    assert FindClose(s, 5) == Some(6);
    assert s[0..5] == Open;
  }

  lemma LazyExampleTail()
    ensures Scan(LazyExample, 12, 12) == ["b</kbd>"]
  {
    var s := LazyExample;
    ScanSkip(s, 12, 12);
    ScanSkip(s, 12, 13);
    ScanSkipNoLt(s, 12, 14, 19);
    assert s[12..] == "b</kbd>";
  }

  /** The lazy `.*?` stops at the first closing tag. */
  lemma FirstCloseEndsMatch()
    ensures Split(LazyExample) == ["", "<kbd>a</kbd>", "b</kbd>"]
    ensures Parse(LazyExample) == [Plain(""), Kbd("a"), Plain("b</kbd>")]
  {
    var s := LazyExample;
    LazyExampleMatch();
    LazyExampleTail();
    assert s[0..0] == "" && s[0..12] == "<kbd>a</kbd>";
    assert Split(s) == ["", "<kbd>a</kbd>", "b</kbd>"];
    assert "<kbd>a</kbd>"[5..6] == "a";
  }

  const LineBreakExample: string := "<kbd>a\nb</kbd>"

  lemma LineBreakExampleNoMatch()
    ensures MatchAt(LineBreakExample, 0) == None
  {
    var s := LineBreakExample;
    assert s[5..11][0] == 'a';
    assert s[6..12][0] == '\n';
    assert FindClose(s, 6) == None;
    assert FindClose(s, 5) == None;
  }

  lemma LineBreakExampleSplit()
    ensures Split(LineBreakExample) == [LineBreakExample]
  {
    var s := LineBreakExample;
    LineBreakExampleNoMatch();
    ScanSkipNoLt(s, 0, 1, 8);
    ScanSkip(s, 0, 8);
    ScanSkipNoLt(s, 0, 9, 14);
  }

  /** A line break stops the pattern, yet the unmatched part still starts
      with `<kbd>` and ends with `</kbd>`, so it renders as one key token
      whose content holds the line break. */
  lemma LineBreakStillRendersKey()
    ensures Split(LineBreakExample) == [LineBreakExample]
    ensures Parse(LineBreakExample) == [Kbd("a\nb")]
  {
    var s := LineBreakExample;
    LineBreakExampleSplit();
    assert s[..5] == Open && s[8..] == Close;
    assert s[5..8] == "a\nb";
  }
}
