/**
 * `parseContentWithMathAndMarkdown` (lib/content-parser.ts:49-162): the segmenter with the
 * markup heuristic of lib/content-parser.ts:33-47 as the gap classifier.
 */
module ContentParser {
  import Markdown
  import opened Segmenter

  method ParseContentWithMathAndMarkdown(content: seq<char>) returns (r: ParsedContent)
    ensures r.segments == SegmentsOf(content, Markdown.HasMarkdownSyntax)
    ensures |r.segments| >= 1
    ensures r.hasMath <==> HasMathSegment(r.segments)
    ensures r.hasMarkdown <==> HasMarkdownSegment(r.segments)
    ensures |content| == 0 ==> r == ParsedContent(false, false, [Segment(Text, [])])
    ensures forall seg :: seg in r.segments && !seg.kind.IsMath() && |content| > 0 ==>
      seg.content != [] && (seg.kind == Markdown <==> Markdown.HasMarkdownSyntax(seg.content))
  {
    r := ParseWith(content, Markdown.HasMarkdownSyntax);
    if |content| > 0 {
      ProseTyping(content, Markdown.HasMarkdownSyntax);
    }
  }
}
