/**
 * The segmenter shared by `parseContentWithMathAndMarkdown` (lib/content-parser.ts:49-162) and
 * `parseContentWithMath` (lib/math.ts:27-121): scan the three math patterns, sort the records by
 * start, drop overlapping ones, then walk the text left to right emitting prose gaps and math
 * spans. The two sources differ only in how a prose gap is typed, so the segmenter takes the
 * gap classifier as a parameter.
 */
module Segmenter {
  import opened Wrappers
  import opened MathPatterns
  import opened OverlapFilter
  import JsText

  /** `ContentSegment.type`. */
  datatype SegmentType = Text | MathDisplay | MathInline | Markdown {
    predicate IsMath() {
      this == MathDisplay || this == MathInline
    }
  }

  /** `ContentSegment` without its `id` (which embeds `Date.now()`). */
  datatype Segment = Segment(kind: SegmentType, content: seq<char>)

  /** `ParsedContent`. */
  datatype ParsedContent = ParsedContent(hasMarkdown: bool, hasMath: bool, segments: seq<Segment>)

  /** A prose slice, typed as a whole by the classifier. */
  function ProseSegment(text: seq<char>, isMarkdown: seq<char> -> bool): Segment {
    Segment(if isMarkdown(text) then Markdown else Text, text)
  }

  /** The segment emitted for an accepted record with non-empty content. */
  function MathSegment(m: MathMatch): Segment {
    Segment(if m.kind == Display then MathDisplay else MathInline, m.content)
  }

  predicate HasMathSegment(segs: seq<Segment>) {
    exists i :: 0 <= i < |segs| && segs[i].kind.IsMath()
  }

  predicate HasMarkdownSegment(segs: seq<Segment>) {
    exists i :: 0 <= i < |segs| && segs[i].kind == Markdown
  }

  // ---------------------------------------------------------------------------
  // The records the walk sees.
  // ---------------------------------------------------------------------------

  /** Every record, in scan order: all display matches, then `\(`, then `$`. */
  function Candidates(s: seq<char>): seq<MathMatch> {
    Gather(s, ScanOrder)
  }

  /** The records that survive the sort and the overlap filter. */
  function Accepted(s: seq<char>): seq<MathMatch> {
    GreedyFilter(SortByStart(Candidates(s)))
  }

  /** Every record lies inside the text. */
  predicate InBounds(A: seq<MathMatch>, n: nat) {
    forall k :: 0 <= k < |A| ==> A[k].start <= A[k].end <= n
  }

  /** A record found by some pattern lies inside the text and spans at least three characters. */
  lemma FoundByAnyBounds(s: seq<char>, m: MathMatch)
    requires FoundByAny(s, m)
    ensures m.start + 3 <= m.end <= |s|
  {
    if FoundBy(s, DisplayBracket, m) {
      FoundBounds(s, DisplayBracket, m);
    } else if FoundBy(s, InlineParen, m) {
      FoundBounds(s, InlineParen, m);
    } else {
      FoundBounds(s, InlineDollar, m);
    }
  }

  /**
   * The accepted records are real matches of the patterns, lie inside the text, and are
   * pairwise disjoint in ascending order.
   */
  lemma AcceptedChain(s: seq<char>)
    ensures forall m :: m in Accepted(s) ==> FoundByAny(s, m)
    ensures Proper(Accepted(s)) && Disjoint(Accepted(s)) && InBounds(Accepted(s), |s|)
  {
    var c := Candidates(s);
    GatheredCandidates(s);
    SortByStartSpec(c);
    var sc := SortByStart(c);
    forall m | m in sc
      ensures FoundByAny(s, m) && m.start + 3 <= m.end <= |s|
    {
      assert m in multiset(sc);
      assert m in c;
      FoundByAnyBounds(s, m);
    }
    assert Proper(sc) by {
      forall k | 0 <= k < |sc|
        ensures sc[k].start < sc[k].end
      {
        assert sc[k] in sc;
      }
    }
    GreedyFilterDisjoint(sc);
    GreedyFilterKeepsCandidates(sc);
    var A := Accepted(s);
    forall k | 0 <= k < |A|
      ensures A[k].start < A[k].end <= |s|
    {
      assert A[k] in A;
    }
  }

  // ---------------------------------------------------------------------------
  // The walk (lib/content-parser.ts:99-155, lib/math.ts:74-118), as the source writes it.
  // ---------------------------------------------------------------------------

  /** `currentIndex` and the segments pushed so far. */
  datatype WalkState = WalkState(cursor: nat, segments: seq<Segment>)

  /** One turn of the walk: the gap before `m` if it is non-empty, then `m` itself if its content is non-empty. */
  function Step(content: seq<char>, isMarkdown: seq<char> -> bool, w: WalkState, m: MathMatch): WalkState
    requires m.start <= |content|
  {
    var withGap :=
      if m.start > w.cursor then w.segments + [ProseSegment(content[w.cursor..m.start], isMarkdown)]
      else w.segments;
    var withMath := if m.content != [] then withGap + [MathSegment(m)] else withGap;
    WalkState(m.end, withMath)
  }

  /** The state after the walk has processed every record of `A`. */
  function Walk(content: seq<char>, isMarkdown: seq<char> -> bool, A: seq<MathMatch>): WalkState
    requires InBounds(A, |content|)
    decreases |A|
  {
    if A == [] then WalkState(0, [])
    else Step(content, isMarkdown, Walk(content, isMarkdown, A[..|A| - 1]), A[|A| - 1])
  }

  /** The remaining text after the last record, then the whole-text fallback. */
  function Finish(content: seq<char>, isMarkdown: seq<char> -> bool, w: WalkState): seq<Segment> {
    var segs :=
      if w.cursor < |content| then w.segments + [ProseSegment(content[w.cursor..], isMarkdown)]
      else w.segments;
    if segs == [] then [ProseSegment(content, isMarkdown)] else segs
  }

  /** The segments the walk emits over the records `A`. */
  function Emit(content: seq<char>, isMarkdown: seq<char> -> bool, A: seq<MathMatch>): seq<Segment>
    requires InBounds(A, |content|)
  {
    Finish(content, isMarkdown, Walk(content, isMarkdown, A))
  }

  /** The segment list the source returns for `content`. */
  function SegmentsOf(content: seq<char>, isMarkdown: seq<char> -> bool): (segs: seq<Segment>)
    ensures |segs| >= 1
  {
    if |content| == 0 then [Segment(Text, [])]
    else
      AcceptedChain(content);
      Emit(content, isMarkdown, Accepted(content))
  }

  lemma FlagsAppend(segs: seq<Segment>, x: Segment)
    ensures HasMathSegment(segs + [x]) <==> HasMathSegment(segs) || x.kind.IsMath()
    ensures HasMarkdownSegment(segs + [x]) <==> HasMarkdownSegment(segs) || x.kind == Markdown
  {
    var t := segs + [x];
    assert t[|segs|] == x;
    if HasMathSegment(t) {
      var i :| 0 <= i < |t| && t[i].kind.IsMath();
      if i < |segs| {
        assert segs[i] == t[i];
      }
    }
    if HasMarkdownSegment(t) {
      var i :| 0 <= i < |t| && t[i].kind == Markdown;
      if i < |segs| {
        assert segs[i] == t[i];
      }
    }
    if HasMathSegment(segs) {
      var i :| 0 <= i < |segs| && segs[i].kind.IsMath();
      assert t[i] == segs[i];
    }
    if HasMarkdownSegment(segs) {
      var i :| 0 <= i < |segs| && segs[i].kind == Markdown;
      assert t[i] == segs[i];
    }
  }

  /** The scan loops (lib/content-parser.ts:69-81): every pattern, in order, from offset 0. */
  method CollectCandidates(content: seq<char>) returns (allMathMatches: seq<MathMatch>)
    ensures allMathMatches == Candidates(content)
  {
    allMathMatches := [];
    for p := 0 to |ScanOrder|
      invariant allMathMatches == Gather(content, ScanOrder[..p])
    {
      var found := ScanPattern(content, ScanOrder[p]);
      allMathMatches := allMathMatches + found;
      assert ScanOrder[..p + 1][..p] == ScanOrder[..p];
    }
    assert ScanOrder[..|ScanOrder|] == ScanOrder;
  }

  /**
   * The walk over the accepted records (lib/content-parser.ts:99-133): the final
   * `currentIndex`, the segments pushed, and the two flags, which record exactly whether a
   * math and a markdown segment were pushed.
   */
  method WalkRecords(content: seq<char>, isMarkdown: seq<char> -> bool, filteredMathMatches: seq<MathMatch>)
    returns (currentIndex: nat, segments: seq<Segment>, hasMath: bool, hasMarkdown: bool)
    requires InBounds(filteredMathMatches, |content|)
    ensures WalkState(currentIndex, segments) == Walk(content, isMarkdown, filteredMathMatches)
    ensures hasMath <==> HasMathSegment(segments)
    ensures hasMarkdown <==> HasMarkdownSegment(segments)
  {
    currentIndex, segments, hasMath, hasMarkdown := 0, [], false, false;
    for i := 0 to |filteredMathMatches|
      invariant WalkState(currentIndex, segments) == Walk(content, isMarkdown, filteredMathMatches[..i])
      invariant hasMath <==> HasMathSegment(segments)
      invariant hasMarkdown <==> HasMarkdownSegment(segments)
    {
      var current := filteredMathMatches[i];
      WalkPrefix(content, isMarkdown, filteredMathMatches, i + 1);
      if current.start > currentIndex {
        var textContent := content[currentIndex..current.start];
        if textContent != [] {
          var isMd := isMarkdown(textContent);
          if isMd {
            hasMarkdown := true;
          }
          FlagsAppend(segments, ProseSegment(textContent, isMarkdown));
          segments := segments + [ProseSegment(textContent, isMarkdown)];
        }
      }
      if current.content != [] {
        hasMath := true;
        FlagsAppend(segments, MathSegment(current));
        segments := segments + [MathSegment(current)];
      }
      currentIndex := current.end;
    }
    assert filteredMathMatches[..|filteredMathMatches|] == filteredMathMatches;
  }

  /**
   * The body shared by both sources, with the gap classifier as a parameter. The result is
   * the segment list of `SegmentsOf`, and the two flags report exactly whether a math and a
   * markdown segment occur in it.
   */
  method ParseWith(content: seq<char>, isMarkdown: seq<char> -> bool) returns (r: ParsedContent)
    ensures r.segments == SegmentsOf(content, isMarkdown)
    ensures r.hasMath <==> HasMathSegment(r.segments)
    ensures r.hasMarkdown <==> HasMarkdownSegment(r.segments)
    ensures |content| == 0 ==> r == ParsedContent(false, false, [Segment(Text, [])])
  {
    if |content| == 0 {
      return ParsedContent(false, false, [Segment(Text, [])]);
    }
    var allMathMatches := CollectCandidates(content);
    var sorted := SortByStart(allMathMatches);
    var filteredMathMatches := RemoveOverlaps(sorted);
    AcceptedChain(content);
    var currentIndex, segments, hasMath, hasMarkdown := WalkRecords(content, isMarkdown, filteredMathMatches);
    r := FinishWalk(content, isMarkdown, currentIndex, segments, hasMath, hasMarkdown);
  }

  /**
   * The end of the body (lib/content-parser.ts:132-161): push the text after the last record,
   * then fall back to the whole text when nothing was pushed. The flags keep reporting exactly
   * whether a math and a markdown segment occur.
   */
  method FinishWalk(content: seq<char>, isMarkdown: seq<char> -> bool, currentIndex: nat, segments: seq<Segment>, hasMath: bool, hasMarkdown: bool)
    returns (r: ParsedContent)
    requires hasMath <==> HasMathSegment(segments)
    requires hasMarkdown <==> HasMarkdownSegment(segments)
    ensures r.segments == Finish(content, isMarkdown, WalkState(currentIndex, segments))
    ensures r.hasMath <==> HasMathSegment(r.segments)
    ensures r.hasMarkdown <==> HasMarkdownSegment(r.segments)
  {
    var segs, hasMd := segments, hasMarkdown;
    if currentIndex < |content| {
      var remainingText := content[currentIndex..];
      if remainingText != [] {
        var isMd := isMarkdown(remainingText);
        if isMd {
          hasMd := true;
        }
        FlagsAppend(segs, ProseSegment(remainingText, isMarkdown));
        segs := segs + [ProseSegment(remainingText, isMarkdown)];
      }
    }

    if |segs| == 0 {
      var isMd := isMarkdown(content);
      if isMd {
        hasMd := true;
      }
      FlagsAppend(segs, ProseSegment(content, isMarkdown));
      segs := segs + [ProseSegment(content, isMarkdown)];
    }

    return ParsedContent(hasMd, hasMath, segs);
  }

  // ---------------------------------------------------------------------------
  // The same walk, read as a tiling of the text: gap, span, gap, span, ..., gap.
  // ---------------------------------------------------------------------------

  /** A stretch of the text: a gap between records, or the span of one record. */
  datatype Piece = Gap(lo: nat, hi: nat) | Span(m: MathMatch) {
    function Lo(): nat {
      if Gap? then lo else m.start
    }
    function Hi(): nat {
      if Gap? then hi else m.end
    }
  }

  /** Where gap `k` starts: the text start, or the end of record `k - 1`. */
  function GapLo(A: seq<MathMatch>, k: nat): nat
    requires k <= |A|
  {
    if k == 0 then 0 else A[k - 1].end
  }

  /** Where gap `k` ends: the start of record `k`, or the text end. */
  function GapHi(A: seq<MathMatch>, k: nat, n: nat): nat
    requires k <= |A|
  {
    if k == |A| then n else A[k].start
  }

  /** Gap 0, record 0, gap 1, record 1, ..., up to and including record `k - 1`. */
  function PiecesBefore(A: seq<MathMatch>, k: nat): seq<Piece>
    requires k <= |A|
  {
    if k == 0 then [] else PiecesBefore(A, k - 1) + [Gap(GapLo(A, k - 1), A[k - 1].start), Span(A[k - 1])]
  }

  /** Gap 0, record 0, gap 1, record 1, ..., gap `|A|`. */
  function Pieces(A: seq<MathMatch>, n: nat): seq<Piece> {
    PiecesBefore(A, |A|) + [Gap(GapLo(A, |A|), n)]
  }

  predicate GapsInside(P: seq<Piece>, n: nat) {
    forall p :: p in P && p.Gap? ==> p.hi <= n
  }

  /** What a piece contributes: a non-empty gap as one prose segment, a span with content as one math segment. */
  function Render(content: seq<char>, isMarkdown: seq<char> -> bool, p: Piece): seq<Segment>
    requires p.Gap? ==> p.hi <= |content|
  {
    match p
    case Gap(lo, hi) => if lo < hi then [ProseSegment(content[lo..hi], isMarkdown)] else []
    case Span(m) => if m.content != [] then [MathSegment(m)] else []
  }

  function RenderAll(content: seq<char>, isMarkdown: seq<char> -> bool, P: seq<Piece>): seq<Segment>
    requires GapsInside(P, |content|)
    decreases |P|
  {
    if P == [] then []
    else RenderAll(content, isMarkdown, P[..|P| - 1]) + Render(content, isMarkdown, P[|P| - 1])
  }

  lemma {:induction false} PiecesBeforeInside(A: seq<MathMatch>, n: nat, k: nat)
    requires InBounds(A, n) && k <= |A|
    ensures GapsInside(PiecesBefore(A, k), n)
  {
    if k > 0 {
      PiecesBeforeInside(A, n, k - 1);
    }
  }

  lemma WalkPrefix(content: seq<char>, isMarkdown: seq<char> -> bool, A: seq<MathMatch>, k: nat)
    requires InBounds(A, |content|) && 0 < k <= |A|
    ensures InBounds(A[..k - 1], |content|)
    ensures Walk(content, isMarkdown, A[..k]) == Step(content, isMarkdown, Walk(content, isMarkdown, A[..k - 1]), A[k - 1])
  {
    assert A[..k][..k - 1] == A[..k - 1];
    assert A[..k][k - 1] == A[k - 1];
  }

  /** One turn of the walk renders the gap from the cursor to the record, then the record. */
  lemma StepRenders(content: seq<char>, isMarkdown: seq<char> -> bool, w: WalkState, m: MathMatch)
    requires m.start <= |content|
    ensures Step(content, isMarkdown, w, m)
         == WalkState(m.end, w.segments + Render(content, isMarkdown, Gap(w.cursor, m.start)) + Render(content, isMarkdown, Span(m)))
  {
  }

  /** The inductive step of `WalkRendersPieces`: one more turn renders one more gap and span. */
  lemma WalkRendersStep(content: seq<char>, isMarkdown: seq<char> -> bool, A: seq<MathMatch>, k: nat)
    requires InBounds(A, |content|) && 0 < k <= |A|
    requires InBounds(A[..k - 1], |content|)
    requires GapsInside(PiecesBefore(A, k - 1), |content|) && GapsInside(PiecesBefore(A, k), |content|)
    requires Walk(content, isMarkdown, A[..k - 1]) == WalkState(GapLo(A, k - 1), RenderAll(content, isMarkdown, PiecesBefore(A, k - 1)))
    ensures Walk(content, isMarkdown, A[..k]) == WalkState(GapLo(A, k), RenderAll(content, isMarkdown, PiecesBefore(A, k)))
  {
    var m := A[k - 1];
    var g, sp := Gap(GapLo(A, k - 1), m.start), Span(m);
    var X := PiecesBefore(A, k - 1);
    var R0 := RenderAll(content, isMarkdown, X);
    var w := Walk(content, isMarkdown, A[..k - 1]);
    WalkPrefix(content, isMarkdown, A, k);
    StepRenders(content, isMarkdown, w, m);
    var rg, rs := Render(content, isMarkdown, g), Render(content, isMarkdown, sp);
    var Y := PiecesBefore(A, k);
    assert Y[..|Y| - 1] == X + [g] && Y[|Y| - 1] == sp;
    assert (X + [g])[..|X|] == X && (X + [g])[|X|] == g;
    assert RenderAll(content, isMarkdown, X + [g]) == R0 + rg;
    assert RenderAll(content, isMarkdown, Y) == R0 + rg + rs;
  }

  /**
   * The source's walk, driven by `currentIndex` and the test `start > currentIndex`, emits
   * exactly what rendering the first `k` gaps and spans emits, and its cursor sits at the
   * start of gap `k`.
   */
  lemma {:induction false} WalkRendersPieces(content: seq<char>, isMarkdown: seq<char> -> bool, A: seq<MathMatch>, k: nat)
    requires InBounds(A, |content|) && k <= |A|
    ensures GapsInside(PiecesBefore(A, k), |content|)
    ensures Walk(content, isMarkdown, A[..k]) == WalkState(GapLo(A, k), RenderAll(content, isMarkdown, PiecesBefore(A, k)))
  {
    PiecesBeforeInside(A, |content|, k);
    if k == 0 {
      assert A[..0] == [];
    } else {
      WalkRendersPieces(content, isMarkdown, A, k - 1);
      WalkPrefix(content, isMarkdown, A, k);
      WalkRendersStep(content, isMarkdown, A, k);
    }
  }

  /** Rendering a list that ends in a gap renders the rest, then that gap. */
  lemma RenderLast(content: seq<char>, isMarkdown: seq<char> -> bool, X: seq<Piece>, g: Piece)
    requires GapsInside(X, |content|) && g.Gap? && g.hi <= |content|
    ensures GapsInside(X + [g], |content|)
    ensures RenderAll(content, isMarkdown, X + [g]) == RenderAll(content, isMarkdown, X) + Render(content, isMarkdown, g)
  {
    assert (X + [g])[..|X|] == X && (X + [g])[|X|] == g;
  }

  /** The end of the walk renders the last gap, from the cursor to the end of the text. */
  lemma FinishRenders(content: seq<char>, isMarkdown: seq<char> -> bool, w: WalkState)
    ensures var R := w.segments + Render(content, isMarkdown, Gap(w.cursor, |content|));
      Finish(content, isMarkdown, w) == if R == [] then [ProseSegment(content, isMarkdown)] else R
  {
    if w.cursor < |content| {
      assert content[w.cursor..] == content[w.cursor..|content|];
    }
  }

  /** The segments the walk emits are the rendered pieces, or the whole-text fallback when those are empty. */
  lemma EmitRendersPieces(content: seq<char>, isMarkdown: seq<char> -> bool, A: seq<MathMatch>)
    requires InBounds(A, |content|)
    ensures GapsInside(Pieces(A, |content|), |content|)
    ensures var R := RenderAll(content, isMarkdown, Pieces(A, |content|));
      Emit(content, isMarkdown, A) == if R == [] then [ProseSegment(content, isMarkdown)] else R
  {
    var g := Gap(GapLo(A, |A|), |content|);
    WalkRendersPieces(content, isMarkdown, A, |A|);
    assert A[..|A|] == A;
    RenderLast(content, isMarkdown, PiecesBefore(A, |A|), g);
    FinishRenders(content, isMarkdown, Walk(content, isMarkdown, A));
  }

  /** `P` lies end to end, each piece no longer than the text, and ends at offset `hi`, starting from 0. */
  predicate TilesUpTo(P: seq<Piece>, hi: nat)
    decreases |P|
  {
    if P == [] then hi == 0
    else P[|P| - 1].Hi() == hi && P[|P| - 1].Lo() <= hi && TilesUpTo(P[..|P| - 1], P[|P| - 1].Lo())
  }

  lemma {:induction false} PiecesBeforeTile(A: seq<MathMatch>, n: nat, k: nat)
    requires InBounds(A, n) && Disjoint(A) && k <= |A|
    ensures TilesUpTo(PiecesBefore(A, k), GapLo(A, k))
  {
    if k > 0 {
      PiecesBeforeTile(A, n, k - 1);
      var X := PiecesBefore(A, k - 1);
      var g, sp := Gap(GapLo(A, k - 1), A[k - 1].start), Span(A[k - 1]);
      var Y := PiecesBefore(A, k);
      if k > 1 {
        assert A[k - 2].end <= A[k - 1].start;
      }
      assert Y[..|Y| - 1] == X + [g];
      assert (X + [g])[..|X|] == X;
    }
  }

  /** Over disjoint records in ascending order, the gaps and the spans tile `[0, n)` in order. */
  lemma PiecesTile(A: seq<MathMatch>, n: nat)
    requires InBounds(A, n) && Disjoint(A)
    ensures TilesUpTo(Pieces(A, n), n)
  {
    PiecesBeforeTile(A, n, |A|);
    var P := Pieces(A, n);
    assert P[..|P| - 1] == PiecesBefore(A, |A|);
  }

  /** The text of the pieces, read one after the other. */
  function Spell(content: seq<char>, P: seq<Piece>): seq<char>
    requires forall p :: p in P ==> p.Lo() <= p.Hi() <= |content|
    decreases |P|
  {
    if P == [] then []
    else Spell(content, P[..|P| - 1]) + content[P[|P| - 1].Lo()..P[|P| - 1].Hi()]
  }

  lemma {:induction false} SpellTiling(content: seq<char>, P: seq<Piece>, hi: nat)
    requires TilesUpTo(P, hi) && hi <= |content|
    ensures forall p :: p in P ==> p.Lo() <= p.Hi() <= hi
    ensures Spell(content, P) == content[..hi]
    decreases |P|
  {
    if P != [] {
      var last := P[|P| - 1];
      SpellTiling(content, P[..|P| - 1], last.Lo());
      assert forall p :: p in P ==> p in P[..|P| - 1] || p == last;
      assert content[..last.Lo()] + content[last.Lo()..hi] == content[..hi];
    }
  }

  /**
   * Nothing of the text is lost or repeated: the prose gaps and the accepted math spans lie
   * end to end over `[0, |content|)`, and read in order they spell the whole input.
   */
  lemma AcceptedTilesText(content: seq<char>)
    ensures TilesUpTo(Pieces(Accepted(content), |content|), |content|)
    ensures forall p :: p in Pieces(Accepted(content), |content|) ==> p.Lo() <= p.Hi() <= |content|
    ensures Spell(content, Pieces(Accepted(content), |content|)) == content
  {
    AcceptedChain(content);
    PiecesTile(Accepted(content), |content|);
    SpellTiling(content, Pieces(Accepted(content), |content|), |content|);
  }

  lemma {:induction false} RenderAllOrigins(content: seq<char>, isMarkdown: seq<char> -> bool, P: seq<Piece>)
    requires GapsInside(P, |content|)
    ensures forall seg :: seg in RenderAll(content, isMarkdown, P) ==>
      exists p :: p in P && seg in Render(content, isMarkdown, p)
    decreases |P|
  {
    if P != [] {
      var Q := P[..|P| - 1];
      RenderAllOrigins(content, isMarkdown, Q);
      assert forall p :: p in Q ==> p in P;
      assert P[|P| - 1] in P;
    }
  }

  lemma {:induction false} RenderAllEmpty(content: seq<char>, isMarkdown: seq<char> -> bool, P: seq<Piece>)
    requires GapsInside(P, |content|)
    ensures RenderAll(content, isMarkdown, P) == [] <==> forall p :: p in P ==> Render(content, isMarkdown, p) == []
    decreases |P|
  {
    if P != [] {
      var Q := P[..|P| - 1];
      RenderAllEmpty(content, isMarkdown, Q);
      assert forall p :: p in P ==> p in Q || p == P[|P| - 1];
      assert forall p :: p in Q ==> p in P;
    }
  }

  /** Piece `p` is gap `j` of `A` within a text of length `n`. */
  predicate IsGapPiece(A: seq<MathMatch>, n: nat, p: Piece) {
    exists j :: 0 <= j <= |A| && p == Gap(GapLo(A, j), GapHi(A, j, n))
  }

  /** Piece `p` is the span of record `j` of `A`. */
  predicate IsSpanPiece(A: seq<MathMatch>, p: Piece) {
    exists j :: 0 <= j < |A| && p == Span(A[j])
  }

  /** Every piece before record `k` is a gap or a record span. */
  lemma {:induction false} PiecesBeforeKinds(A: seq<MathMatch>, n: nat, k: nat)
    requires k <= |A|
    ensures forall p :: p in PiecesBefore(A, k) ==> IsGapPiece(A, n, p) || IsSpanPiece(A, p)
  {
    if k > 0 {
      PiecesBeforeKinds(A, n, k - 1);
      var X := PiecesBefore(A, k - 1);
      var g := Gap(GapLo(A, k - 1), A[k - 1].start);
      assert g == Gap(GapLo(A, k - 1), GapHi(A, k - 1, n));
      assert IsGapPiece(A, n, g);
      assert IsSpanPiece(A, Span(A[k - 1]));
      assert forall p :: p in PiecesBefore(A, k) ==> p in X || p == g || p == Span(A[k - 1]);
    }
  }

  /** Gap `j` and record `j` are among the pieces before record `k`, for every `j < k`. */
  lemma {:induction false} PiecesBeforeCover(A: seq<MathMatch>, n: nat, k: nat)
    requires k <= |A|
    ensures forall j :: 0 <= j < k ==> Span(A[j]) in PiecesBefore(A, k)
    ensures forall j :: 0 <= j < k ==> Gap(GapLo(A, j), GapHi(A, j, n)) in PiecesBefore(A, k)
  {
    if k > 0 {
      PiecesBeforeCover(A, n, k - 1);
      var X := PiecesBefore(A, k - 1);
      var g := Gap(GapLo(A, k - 1), A[k - 1].start);
      assert g == Gap(GapLo(A, k - 1), GapHi(A, k - 1, n));
      assert forall p :: p in X ==> p in PiecesBefore(A, k);
      assert g in PiecesBefore(A, k) && Span(A[k - 1]) in PiecesBefore(A, k);
    }
  }

  /** The pieces are exactly the gaps and the record spans. */
  lemma PiecesBeforeMembers(A: seq<MathMatch>, n: nat, k: nat)
    requires k <= |A|
    ensures forall p :: p in PiecesBefore(A, k) ==> IsGapPiece(A, n, p) || IsSpanPiece(A, p)
    ensures forall j :: 0 <= j < k ==> Span(A[j]) in PiecesBefore(A, k)
    ensures forall j :: 0 <= j < k ==> Gap(GapLo(A, j), GapHi(A, j, n)) in PiecesBefore(A, k)
  {
    PiecesBeforeKinds(A, n, k);
    PiecesBeforeCover(A, n, k);
  }

  lemma PiecesMembers(A: seq<MathMatch>, n: nat)
    ensures forall p :: p in Pieces(A, n) ==> IsGapPiece(A, n, p) || IsSpanPiece(A, p)
    ensures forall j :: 0 <= j < |A| ==> Span(A[j]) in Pieces(A, n)
    ensures forall j :: 0 <= j <= |A| ==> Gap(GapLo(A, j), GapHi(A, j, n)) in Pieces(A, n)
  {
    PiecesBeforeMembers(A, n, |A|);
    assert IsGapPiece(A, n, Gap(GapLo(A, |A|), n));
  }

  /** `seg` is the prose segment of a non-empty gap between accepted records. */
  predicate IsGapSegment(content: seq<char>, isMarkdown: seq<char> -> bool, A: seq<MathMatch>, seg: Segment) {
    exists k :: 0 <= k <= |A| && GapLo(A, k) < GapHi(A, k, |content|) <= |content|
      && seg == ProseSegment(content[GapLo(A, k)..GapHi(A, k, |content|)], isMarkdown)
  }

  /** `seg` is the math segment of an accepted record with non-empty content. */
  predicate IsRecordSegment(A: seq<MathMatch>, seg: Segment) {
    exists k :: 0 <= k < |A| && A[k].content != [] && seg == MathSegment(A[k])
  }

  /** A segment rendered from a gap or a record span is a gap segment or a record segment. */
  lemma RenderedOrigin(content: seq<char>, isMarkdown: seq<char> -> bool, A: seq<MathMatch>, p: Piece, seg: Segment)
    requires p.Gap? ==> p.hi <= |content|
    requires IsGapPiece(A, |content|, p) || IsSpanPiece(A, p)
    requires seg in Render(content, isMarkdown, p)
    ensures IsGapSegment(content, isMarkdown, A, seg) || IsRecordSegment(A, seg)
  {
    if IsGapPiece(A, |content|, p) {
      var j :| 0 <= j <= |A| && p == Gap(GapLo(A, j), GapHi(A, j, |content|));
      assert GapLo(A, j) < GapHi(A, j, |content|);
    } else {
      var j :| 0 <= j < |A| && p == Span(A[j]);
      assert A[j].content != [];
    }
  }

  /** Every segment the walk emits over `A` comes from a non-empty gap or a record, or is the fallback. */
  lemma EmitOrigins(content: seq<char>, isMarkdown: seq<char> -> bool, A: seq<MathMatch>)
    requires InBounds(A, |content|)
    ensures forall seg :: seg in Emit(content, isMarkdown, A) ==>
      || IsGapSegment(content, isMarkdown, A, seg)
      || IsRecordSegment(A, seg)
      || Emit(content, isMarkdown, A) == [ProseSegment(content, isMarkdown)]
  {
    var n := |content|;
    var P := Pieces(A, n);
    EmitRendersPieces(content, isMarkdown, A);
    RenderAllOrigins(content, isMarkdown, P);
    PiecesMembers(A, n);
    var R := RenderAll(content, isMarkdown, P);
    if R != [] {
      forall seg | seg in R
        ensures IsGapSegment(content, isMarkdown, A, seg) || IsRecordSegment(A, seg)
      {
        var p :| p in P && seg in Render(content, isMarkdown, p);
        RenderedOrigin(content, isMarkdown, A, p, seg);
      }
    }
  }

  /**
   * Where each segment comes from: a non-empty gap between accepted records, typed as a whole
   * by the classifier; or an accepted record whose trimmed content is non-empty; or else the
   * result is the single whole-text segment of the fallback.
   */
  lemma SegmentOrigins(content: seq<char>, isMarkdown: seq<char> -> bool)
    requires |content| > 0
    ensures forall seg :: seg in SegmentsOf(content, isMarkdown) ==>
      || IsGapSegment(content, isMarkdown, Accepted(content), seg)
      || IsRecordSegment(Accepted(content), seg)
      || SegmentsOf(content, isMarkdown) == [ProseSegment(content, isMarkdown)]
  {
    AcceptedChain(content);
    EmitOrigins(content, isMarkdown, Accepted(content));
  }

  /** A rendering of all pieces that is empty leaves every gap empty and every record contentless. */
  lemma RenderedNothing(content: seq<char>, isMarkdown: seq<char> -> bool, A: seq<MathMatch>)
    requires InBounds(A, |content|)
    requires GapsInside(Pieces(A, |content|), |content|)
    requires RenderAll(content, isMarkdown, Pieces(A, |content|)) == []
    ensures forall k :: 0 <= k < |A| ==> A[k].content == []
    ensures forall k :: 0 <= k <= |A| ==> GapHi(A, k, |content|) <= GapLo(A, k)
  {
    var n := |content|;
    var P := Pieces(A, n);
    RenderAllEmpty(content, isMarkdown, P);
    PiecesMembers(A, n);
    forall k | 0 <= k < |A|
      ensures A[k].content == []
    {
      assert Render(content, isMarkdown, Span(A[k])) == [];
    }
    forall k | 0 <= k <= |A|
      ensures GapHi(A, k, n) <= GapLo(A, k)
    {
      assert Render(content, isMarkdown, Gap(GapLo(A, k), GapHi(A, k, n))) == [];
    }
  }

  /** Empty gaps and contentless records render to nothing. */
  lemma NothingToRender(content: seq<char>, isMarkdown: seq<char> -> bool, A: seq<MathMatch>)
    requires InBounds(A, |content|)
    requires GapsInside(Pieces(A, |content|), |content|)
    requires forall k :: 0 <= k < |A| ==> A[k].content == []
    requires forall k :: 0 <= k <= |A| ==> GapHi(A, k, |content|) <= GapLo(A, k)
    ensures RenderAll(content, isMarkdown, Pieces(A, |content|)) == []
  {
    var n := |content|;
    var P := Pieces(A, n);
    RenderAllEmpty(content, isMarkdown, P);
    PiecesMembers(A, n);
    forall p | p in P
      ensures Render(content, isMarkdown, p) == []
    {
      PieceRendersNothing(content, isMarkdown, A, p);
    }
  }

  lemma PieceRendersNothing(content: seq<char>, isMarkdown: seq<char> -> bool, A: seq<MathMatch>, p: Piece)
    requires p.Gap? ==> p.hi <= |content|
    requires IsGapPiece(A, |content|, p) || IsSpanPiece(A, p)
    requires forall k :: 0 <= k < |A| ==> A[k].content == []
    requires forall k :: 0 <= k <= |A| ==> GapHi(A, k, |content|) <= GapLo(A, k)
    ensures Render(content, isMarkdown, p) == []
  {
    if IsGapPiece(A, |content|, p) {
      var j :| 0 <= j <= |A| && p == Gap(GapLo(A, j), GapHi(A, j, |content|));
      assert !(p.lo < p.hi);
    } else {
      var j :| 0 <= j < |A| && p == Span(A[j]);
      assert p.m.content == [];
    }
  }

  /**
   * The fallback fires exactly when every gap between accepted records is empty and every
   * accepted record trimmed to nothing; the result is then the whole text as one segment,
   * typed by the classifier.
   */
  lemma FallbackCondition(content: seq<char>, isMarkdown: seq<char> -> bool)
    requires |content| > 0
    ensures GapsInside(Pieces(Accepted(content), |content|), |content|)
    ensures RenderAll(content, isMarkdown, Pieces(Accepted(content), |content|)) == [] <==>
        && (forall k :: 0 <= k < |Accepted(content)| ==> Accepted(content)[k].content == [])
        && (forall k :: 0 <= k <= |Accepted(content)| ==> GapHi(Accepted(content), k, |content|) <= GapLo(Accepted(content), k))
    ensures RenderAll(content, isMarkdown, Pieces(Accepted(content), |content|)) == [] ==>
        SegmentsOf(content, isMarkdown) == [ProseSegment(content, isMarkdown)]
  {
    var A := Accepted(content);
    AcceptedChain(content);
    EmitRendersPieces(content, isMarkdown, A);
    if RenderAll(content, isMarkdown, Pieces(A, |content|)) == [] {
      RenderedNothing(content, isMarkdown, A);
    }
    if && (forall k :: 0 <= k < |A| ==> A[k].content == [])
       && (forall k :: 0 <= k <= |A| ==> GapHi(A, k, |content|) <= GapLo(A, k))
    {
      NothingToRender(content, isMarkdown, A);
    }
  }

  /**
   * A non-empty list has its head as a member. Kept as its own lemma so that callers get the
   * membership fact as a term the quantifiers over members of the list can be instantiated on.
   */
  lemma HeadIsMember(c: seq<MathMatch>)
    ensures c != [] ==> c[0] in c
  {
  }

  /** Text in which no pattern matches anywhere comes back as one segment holding all of it. */
  lemma NoDelimiterWholeText(content: seq<char>, isMarkdown: seq<char> -> bool)
    requires |content| > 0
    requires forall d: Delim, i: nat :: MatchAt(content, d, i).None?
    ensures SegmentsOf(content, isMarkdown) == [ProseSegment(content, isMarkdown)]
  {
    GatheredCandidates(content);
    var c := Candidates(content);
    HeadIsMember(c);
    assert c == [];
    assert Accepted(content) == [];
    assert content[0..] == content;
  }

  /**
   * Every prose segment is a non-empty slice typed as a whole by the classifier: `markdown`
   * exactly when the classifier accepts its content, `text` otherwise.
   */
  lemma ProseTyping(content: seq<char>, isMarkdown: seq<char> -> bool)
    requires |content| > 0
    ensures forall seg :: seg in SegmentsOf(content, isMarkdown) && !seg.kind.IsMath() ==>
      seg.content != [] && (seg.kind == Markdown <==> isMarkdown(seg.content))
  {
    var A := Accepted(content);
    var segs := SegmentsOf(content, isMarkdown);
    SegmentOrigins(content, isMarkdown);
    forall seg | seg in segs && !seg.kind.IsMath()
      ensures seg.content != [] && (seg.kind == Markdown <==> isMarkdown(seg.content))
    {
      if segs == [ProseSegment(content, isMarkdown)] {
        assert seg == ProseSegment(content, isMarkdown);
      }
      ProseIsTyped(content, isMarkdown, A, seg);
    }
  }

  /** A segment that is not math is a non-empty prose slice typed by the classifier. */
  lemma ProseIsTyped(content: seq<char>, isMarkdown: seq<char> -> bool, A: seq<MathMatch>, seg: Segment)
    requires |content| > 0 && !seg.kind.IsMath()
    requires IsGapSegment(content, isMarkdown, A, seg) || IsRecordSegment(A, seg) || seg == ProseSegment(content, isMarkdown)
    ensures seg.content != [] && (seg.kind == Markdown <==> isMarkdown(seg.content))
  {
    if IsGapSegment(content, isMarkdown, A, seg) {
      var k :| 0 <= k <= |A| && GapLo(A, k) < GapHi(A, k, |content|) <= |content|
        && seg == ProseSegment(content[GapLo(A, k)..GapHi(A, k, |content|)], isMarkdown);
    }
  }

  /** With a classifier that never fires, no segment is typed `markdown`. */
  lemma SilentClassifier(content: seq<char>, isMarkdown: seq<char> -> bool)
    requires forall t :: !isMarkdown(t)
    ensures forall seg :: seg in SegmentsOf(content, isMarkdown) ==> seg.kind != Markdown
  {
    if |content| > 0 {
      ProseTyping(content, isMarkdown);
    }
  }

  /** `m`'s content is the inner text of its match by pattern `d`, trimmed. */
  predicate InnerTrimmed(content: seq<char>, d: Delim, m: MathMatch) {
    && m.start + Width(d) <= m.end - Width(d) <= |content|
    && m.content == JsText.Trim(content[m.start + Width(d)..m.end - Width(d)])
  }

  /** `seg` is the segment of the accepted record `m`, which pattern `d` found. */
  predicate MathFrom(content: seq<char>, seg: Segment, d: Delim, m: MathMatch) {
    && m in Accepted(content) && FoundBy(content, d, m)
    && seg.content == m.content && m.content != [] && InnerTrimmed(content, d, m)
    && (seg.kind == MathDisplay <==> d == DisplayBracket)
  }

  lemma RecordSegmentOrigin(content: seq<char>, k: nat)
    requires k < |Accepted(content)| && Accepted(content)[k].content != []
    ensures exists d :: MathFrom(content, MathSegment(Accepted(content)[k]), d, Accepted(content)[k])
  {
    var m := Accepted(content)[k];
    AcceptedChain(content);
    assert m in Accepted(content);
    var d :| FoundBy(content, d, m);
    FoundBounds(content, d, m);
    assert MathFrom(content, MathSegment(m), d, m);
  }

  /**
   * Every math segment comes from an accepted match: its content is the match's inner text
   * trimmed, never empty, and it is typed `math_display` exactly when the `\[ \]` pattern
   * found the match.
   */
  lemma MathSegmentOrigins(content: seq<char>, isMarkdown: seq<char> -> bool)
    requires |content| > 0
    ensures forall seg :: seg in SegmentsOf(content, isMarkdown) && seg.kind.IsMath() ==>
      exists d, m :: MathFrom(content, seg, d, m)
  {
    var A := Accepted(content);
    var segs := SegmentsOf(content, isMarkdown);
    SegmentOrigins(content, isMarkdown);
    forall seg | seg in segs && seg.kind.IsMath()
      ensures exists d, m :: MathFrom(content, seg, d, m)
    {
      if segs == [ProseSegment(content, isMarkdown)] {
        assert seg == ProseSegment(content, isMarkdown);
      }
      MathIsRecordSegment(content, isMarkdown, A, seg);
      var k :| 0 <= k < |A| && A[k].content != [] && seg == MathSegment(A[k]);
      RecordSegmentOrigin(content, k);
    }
  }

  /** A math segment is neither a prose gap nor the fallback, so it is a record's segment. */
  lemma MathIsRecordSegment(content: seq<char>, isMarkdown: seq<char> -> bool, A: seq<MathMatch>, seg: Segment)
    requires seg.kind.IsMath()
    requires IsGapSegment(content, isMarkdown, A, seg) || IsRecordSegment(A, seg) || seg == ProseSegment(content, isMarkdown)
    ensures IsRecordSegment(A, seg)
  {
  }

  /** A pattern that matches nowhere contributes no record. */
  lemma NoMatchNoCandidates(s: seq<char>, d: Delim)
    requires forall i: nat :: MatchAt(s, d, i).None?
    ensures CandidatesOf(s, d) == []
  {
    CandidatesOfFound(s, d);
    HeadIsMember(CandidatesOf(s, d));
  }

  /** Text without a backslash has no bracket records. */
  lemma NoBracketCandidates(s: seq<char>)
    requires forall k :: 0 <= k < |s| ==> s[k] != '\\'
    ensures CandidatesOf(s, DisplayBracket) == [] && CandidatesOf(s, InlineParen) == []
  {
    forall d: Delim, i: nat | d != InlineDollar
      ensures MatchAt(s, d, i).None?
    {
      if i < |s| {
        assert s[i] != '\\';
      }
    }
    NoMatchNoCandidates(s, DisplayBracket);
    NoMatchNoCandidates(s, InlineParen);
  }

  /** When the scan finds a single record, that record is the only one accepted. */
  lemma SingleCandidateAccepted(s: seq<char>, m: MathMatch)
    requires CandidatesOf(s, DisplayBracket) == [] && CandidatesOf(s, InlineParen) == []
    requires CandidatesOf(s, InlineDollar) == [m]
    ensures Accepted(s) == [m]
  {
    GatherScanOrder(s);
    assert Candidates(s) == [m];
    assert SortByStart([m]) == [m];
    assert [m][..0] == [];
    assert GreedyFilter([m]) == [m];
  }

  /**
   * When the only accepted record ends the text and trims to nothing, the result is the text
   * before it, or the whole text when there is none.
   */
  lemma TrailingEmptyRecord(content: seq<char>, isMarkdown: seq<char> -> bool, m: MathMatch)
    requires |content| > 0 && Accepted(content) == [m]
    requires m.start <= m.end == |content| && m.content == []
    ensures SegmentsOf(content, isMarkdown) ==
      if m.start > 0 then [ProseSegment(content[..m.start], isMarkdown)] else [ProseSegment(content, isMarkdown)]
  {
    assert [m][..0] == [];
    assert InBounds([m], |content|);
    assert content[0..m.start] == content[..m.start];
    var w := Walk(content, isMarkdown, [m]);
    assert Walk(content, isMarkdown, []) == WalkState(0, []);
    assert [m][..|[m]| - 1] == [] && [m][|[m]| - 1] == m;
    assert w == Step(content, isMarkdown, WalkState(0, []), m);
    assert SegmentsOf(content, isMarkdown) == Finish(content, isMarkdown, w);
  }

  lemma DollarSpaceRecords()
    ensures CandidatesOf("$ $", InlineDollar) == [MathMatch(0, 3, [], Inline)]
  {
    var s := "$ $";
    assert FindStop(s, 1) == Some(2);
    var r := RegexMatch(0, 3, " ");
    assert s[0 + 1..2] == " ";
    assert MatchAt(s, InlineDollar, 0) == Some(r);
    assert Exec(s, InlineDollar, 0) == Some(r);
    assert Exec(s, InlineDollar, 3) == None;
    assert JsText.Trim(" ") == [];
    ScanRecordsStep(s, InlineDollar, 0);
  }

  /**
   * `$ $` is a match whose content trims to nothing: it emits no segment, nothing else is
   * emitted, and the fallback returns the whole text, delimiters included.
   */
  lemma EmptyMathFallsBack(isMarkdown: seq<char> -> bool)
    ensures SegmentsOf("$ $", isMarkdown) == [ProseSegment("$ $", isMarkdown)]
  {
    var s := "$ $";
    var m := MathMatch(0, 3, [], Inline);
    NoBracketCandidates(s);
    DollarSpaceRecords();
    SingleCandidateAccepted(s, m);
    TrailingEmptyRecord(s, isMarkdown, m);
  }

  lemma LetterDollarSpaceRecords()
    ensures CandidatesOf("a$ $", InlineDollar) == [MathMatch(1, 4, [], Inline)]
  {
    var s := "a$ $";
    assert MatchAt(s, InlineDollar, 0) == None;
    assert FindStop(s, 2) == Some(3);
    var r := RegexMatch(1, 4, " ");
    assert s[1 + 1..3] == " ";
    assert MatchAt(s, InlineDollar, 1) == Some(r);
    assert Exec(s, InlineDollar, 0) == Some(r);
    assert Exec(s, InlineDollar, 4) == None;
    assert JsText.Trim(" ") == [];
    ScanRecordsStep(s, InlineDollar, 0);
  }

  /**
   * In `a$ $` the same empty match is skipped and the prose before it is emitted, so the
   * fallback does not fire and the delimiters appear in no segment.
   */
  lemma EmptyMathVanishes(isMarkdown: seq<char> -> bool)
    ensures SegmentsOf("a$ $", isMarkdown) == [ProseSegment("a", isMarkdown)]
  {
    var s := "a$ $";
    var m := MathMatch(1, 4, [], Inline);
    NoBracketCandidates(s);
    LetterDollarSpaceRecords();
    SingleCandidateAccepted(s, m);
    TrailingEmptyRecord(s, isMarkdown, m);
    assert s[..1] == "a";
  }
}
