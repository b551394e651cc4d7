/**
 * `parseContentWithMath` (lib/math.ts:27-121): the same segmenter, with every prose gap typed
 * `text`; the result is the segment list alone.
 */
module MathParser {
  import opened MathPatterns
  import opened Segmenter

  /** The gap classifier of lib/math.ts: no gap is ever markdown. */
  function NeverMarkdown(text: seq<char>): bool {
    false
  }

  method ParseContentWithMath(content: seq<char>) returns (segments: seq<Segment>)
    ensures segments == SegmentsOf(content, NeverMarkdown)
    ensures |segments| >= 1
    ensures forall seg :: seg in segments ==> seg.kind in {Text, MathDisplay, MathInline}
    ensures |content| == 0 ==> segments == [Segment(Text, [])]
  {
    var r := ParseWith(content, NeverMarkdown);
    segments := r.segments;
    SilentClassifier(content, NeverMarkdown);
  }

  /** Text in which none of the three patterns matches comes back whole, as one `text` segment. */
  lemma NoDelimiterIsText(content: seq<char>)
    requires |content| > 0
    requires forall d: Delim, i: nat :: MatchAt(content, d, i).None?
    ensures SegmentsOf(content, NeverMarkdown) == [Segment(Text, content)]
  {
    NoDelimiterWholeText(content, NeverMarkdown);
  }
}
