# Math and markdown segmentation of chat replies

This project models how a chat reply is cut into typed segments before it is rendered.
The reply text is scanned for LaTeX math in three forms: display `\[ … \]`, inline `\( … \)` and inline `$…$`.
The matches of all three patterns are merged, sorted by start offset and cleared of overlaps, with the first match kept.
The text is then walked from left to right:

- each prose gap between accepted matches becomes a `text` segment or, when it shows markdown syntax, a `markdown` segment;
- each accepted match whose trimmed inner text is non-empty becomes a `math_display` or `math_inline` segment.

`parseContentWithMathAndMarkdown` (lib/content-parser.ts) also reports whether any math or markdown segment was produced.
`parseContentWithMath` (lib/math.ts) runs the same pipeline but types every gap as `text`.

The project is written in the source's own shape:

- `Segmenter.ParseWith` is the shared imperative body.
  It has the scan loops, the sort, the overlap-filter loop and the walk loop, and takes the gap classifier as a parameter.
- Each of its loops is a method proved equal to a specification function.
  These are `ScanPattern` = `CandidatesOf`, `CollectCandidates` = `Candidates`, `RemoveOverlaps` = `GreedyFilter`, `WalkRecords` = `Walk` and `FinishWalk` = `Finish`.
- The properties the code promises are proved about those functions.
- The two exported functions are thin methods over `ParseWith`.
  They are `ContentParser.ParseContentWithMathAndMarkdown`, whose classifier is `Markdown.HasMarkdownSyntax`, and `MathParser.ParseContentWithMath`, whose classifier never fires.

Modules:

- `JsText`: `String.prototype.trim` and the `\s` class.
- `MathPatterns`: the three regular expressions, `RegExp.prototype.exec` with `lastIndex`, and the global scan loop.
- `OverlapFilter`: the stable sort by start and the overlap filter.
- `Markdown`: the eight markdown tests.
- `Segmenter`: the walk, the tiling of the text by gaps and matches, and the segment properties.
- `ContentParser` and `MathParser`: the two exported functions.

The regular-expression engine is described at two levels:

- `MatchAt` is the pattern anchored at one offset.
  `MatchAtSpec` proves it returns the shortest slice in the pattern's language, which is the lazy quantifier.
- `Exec` is the match at or after `lastIndex`; `ExecIsLeftmost` proves it is the leftmost one.

The sort is `Array.prototype.sort`, which is stable since ECMAScript 2019.
It is written as an insertion sort and is used only through its proved properties: sorted, a permutation, and stable per start offset.

## Model

| member | source | states |
|---|---|---|
| JsText.TrimSpec | lib/content-parser.ts:77 | `trim` returns a slice of its input, drops only whitespace and line terminators at both ends, and keeps no such character at either end of a non-empty result; the result is empty iff the input is all whitespace |
| JsText.TrimIdempotent | lib/content-parser.ts:77 | trimming twice is trimming once |
| MathPatterns.FindPairIsFirst | lib/content-parser.ts:62-63 | the lazy `[\s\S]*?` body ends at the first closing `\]` or `\)` after the opener: no closing pair occurs before the one found, and none at all when the search fails |
| MathPatterns.FindStopIsFirst | lib/content-parser.ts:64 | the `[^$\n]+?` body ends at the first `$` or newline: no such character occurs before the one found, and none at all when the search fails |
| MathPatterns.MatchAt | lib/content-parser.ts:61-65 | an anchored match starts at the given offset, spans at least three characters and both delimiters inside the text, and group 1 is the text between the delimiters |
| MathPatterns.MatchAtSpec | lib/content-parser.ts:61-65 | the anchored pattern matches exactly when some slice from that offset is in its language, and the match is the shortest such slice |
| MathPatterns.Exec | lib/content-parser.ts:73 | `exec` with `lastIndex = from` returns a match of the pattern at an offset at or after `from` |
| MathPatterns.ExecIsLeftmost | lib/content-parser.ts:73 | the match `exec` returns is the leftmost one: every offset from `from` to its index has no match, and none means no offset at or after `from` has one |
| MathPatterns.ScanIsGlobalScan | lib/content-parser.ts:70-81 | the `while (exec)` loop finds only real matches, in ascending order and pairwise disjoint; it skips no matchable offset between a resumption point and the next match, and after the last match nothing matches |
| MathPatterns.ScanRecordsMirrorScan | lib/content-parser.ts:74-79 | the pushed records are exactly the scanned matches, each converted to `{start, end, trimmed group, type}` |
| MathPatterns.ScanPattern | lib/content-parser.ts:71-80 | the imperative `exec` loop returns exactly the records of the global scan of one pattern |
| MathPatterns.CandidatesOfFound | lib/content-parser.ts:70-81 | every record of one pattern is that pattern's match at its start, and the records are pairwise disjoint in ascending order |
| MathPatterns.FoundBounds | lib/content-parser.ts:74-79 | a record spans at least three characters inside the text; its content is its inner text trimmed; its type is display iff the `\[` pattern found it |
| MathPatterns.DelimiterShape | lib/content-parser.ts:62-64 | a `$` match has a non-empty inner text holding no `$` or newline; a bracket match starts with `\[` or `\(` and ends with `\]` or `\)` |
| MathPatterns.PatternsStartApart | lib/content-parser.ts:61-65 | two different patterns never match at the same offset |
| MathPatterns.GatherScanOrder | lib/content-parser.ts:70-81 | the merged list is all display records, then all `\(` records, then all `$` records |
| MathPatterns.FoundApart | lib/content-parser.ts:61-65 | records of different patterns have different starts |
| MathPatterns.CandidatesOfStartsIncrease | lib/content-parser.ts:70-81 | the records of one pattern have strictly increasing starts |
| MathPatterns.GatheredCandidates | lib/content-parser.ts:68-81 | every merged record was found by some pattern, and no two merged records share a start offset |
| OverlapFilter.InsertSpec | lib/content-parser.ts:84 | inserting into a sorted list keeps it sorted and adds exactly that record |
| OverlapFilter.SortByStartSpec | lib/content-parser.ts:84 | the sort yields a list sorted by start that is a permutation of its input |
| OverlapFilter.SortByStartStable | lib/content-parser.ts:84 | records with equal starts keep their relative order |
| OverlapFilter.RemoveOverlaps | lib/content-parser.ts:86-97 | the filter loop computes `GreedyFilter` of its input |
| OverlapFilter.EndpointTestIsIntersection | lib/content-parser.ts:90-93 | when every kept record starts no later than the candidate, the endpoint test holds iff the candidate intersects a kept record as half-open intervals |
| OverlapFilter.GreedyFilterKeepsCandidates | lib/content-parser.ts:94-96 | the filter only keeps records of its input |
| OverlapFilter.GreedyFilterGrows | lib/content-parser.ts:88-97 | a record kept after a prefix stays kept after any longer prefix |
| OverlapFilter.GreedyFilterDisjoint | lib/content-parser.ts:84-97 | over a sorted input the kept records are pairwise disjoint and in ascending order |
| OverlapFilter.GreedyFilterDropsOnlyOverlapping | lib/content-parser.ts:84-97 | every dropped record intersects a kept one |
| OverlapFilter.LaterSameStartDropped | lib/math.ts:58-72 | of two sorted records with the same start, the later one is dropped and leaves the kept list unchanged, so the stable sort lets the earlier-scanned pattern win |
| Markdown.HasMarkdownSyntaxSpec | lib/content-parser.ts:33-47 | the classifier holds iff one of the eight patterns occurs: bold, italic, `#` heading, `*` bullet, numbered item, `-` bullet, inline code, link |
| Markdown.MarkdownSurvivesSuffix | lib/content-parser.ts:33-47 | text that is markdown stays markdown when text is appended |
| Markdown.PlainProseIsNotMarkdown | lib/content-parser.ts:37-44 | text containing no star, hash, dot, dash, backtick or opening bracket is never markdown |
| Markdown.DashBulletExample | lib/content-parser.ts:42 | a line starting with `- ` makes the text markdown |
| Segmenter.AcceptedChain | lib/content-parser.ts:84-97 | the accepted records are real pattern matches inside the text, each non-empty, pairwise disjoint and in ascending order |
| Segmenter.SegmentsOf | lib/content-parser.ts:147-155 | the segment list is never empty |
| Segmenter.CollectCandidates | lib/content-parser.ts:69-81 | the scan loops collect the records of the three patterns in scan order |
| Segmenter.FinishWalk | lib/content-parser.ts:132-161 | the tail step appends the rest of the text after the last match as one prose segment, falls back to the whole text when nothing was emitted, and keeps both flags in agreement with the segments |
| Segmenter.WalkRecords | lib/content-parser.ts:99-130 | the walk loop computes `Walk`; `hasMath` is set iff a math segment was pushed, and `hasMarkdown` iff a markdown segment was pushed |
| Segmenter.ParseWith | lib/content-parser.ts:49-162 | the result's segments are `SegmentsOf` the input; `hasMath` holds iff a math segment occurs and `hasMarkdown` iff a markdown segment occurs; empty input gives one empty `text` segment with both flags false |
| Segmenter.WalkRendersPieces | lib/content-parser.ts:104-130 | after `k` records the cursor is the start of gap `k`, and the walk has emitted exactly the rendering of gaps and spans `0..k-1` in order |
| Segmenter.EmitRendersPieces | lib/content-parser.ts:104-155 | the walk's output is the in-order rendering of the gaps and spans; only when that rendering is empty is it replaced by the whole-text segment |
| Segmenter.PiecesTile | lib/content-parser.ts:104-144 | over disjoint ascending records, gap 0, record 0, gap 1, …, the last gap lie end to end from offset 0 to the text end |
| Segmenter.SpellTiling | lib/content-parser.ts:104-144 | pieces that lie end to end up to offset `hi` spell exactly the first `hi` characters |
| Segmenter.AcceptedTilesText | lib/content-parser.ts:104-144 | the prose gaps and the accepted math spans tile the whole input in order and spell it exactly |
| Segmenter.RenderAllOrigins | lib/content-parser.ts:104-144 | each emitted segment is the rendering of one piece |
| Segmenter.RenderAllEmpty | lib/content-parser.ts:147 | nothing is emitted iff every piece renders to nothing |
| Segmenter.PiecesMembers | lib/content-parser.ts:104-144 | the pieces are exactly the gaps and the spans of the records, and all of them occur |
| Segmenter.SegmentOrigins | lib/content-parser.ts:104-155 | every segment is one of three things: the prose segment of a non-empty gap between accepted matches, the math segment of an accepted match with non-empty trimmed content, or the single whole-text fallback segment |
| Segmenter.RenderedNothing | lib/content-parser.ts:147 | if nothing was rendered, every gap is empty and every accepted match trimmed to nothing |
| Segmenter.NothingToRender | lib/content-parser.ts:147 | empty gaps and contentless matches render to nothing |
| Segmenter.FallbackCondition | lib/content-parser.ts:147-155 | the fallback fires iff every gap is empty and every accepted match trimmed to nothing; the result is then the whole input as one segment typed by the classifier |
| Segmenter.NoDelimiterWholeText | lib/math.ts:101-118 | input in which no pattern matches anywhere yields exactly one segment holding the whole input |
| Segmenter.ProseTyping | lib/content-parser.ts:106-143 | every prose segment is non-empty, and it is `markdown` iff the classifier accepts its whole content |
| Segmenter.SilentClassifier | lib/math.ts:77-118 | a classifier that never fires yields no `markdown` segment |
| Segmenter.RecordSegmentOrigin | lib/content-parser.ts:119-127 | the segment of an accepted match with content carries that content, the match's inner text trimmed, and is `math_display` iff the `\[` pattern found it |
| Segmenter.MathSegmentOrigins | lib/content-parser.ts:119-127 | every math segment comes from an accepted match in that way |
| Segmenter.EmptyMathFallsBack | lib/content-parser.ts:120 | for `$ $` the empty match emits nothing, and the fallback returns the whole text with its delimiters |
| Segmenter.EmptyMathVanishes | lib/content-parser.ts:120 | for `a$ $` only the segment `a` is emitted, so the delimiters are lost |
| ContentParser.ParseContentWithMathAndMarkdown | lib/content-parser.ts:49-162 | the segments are `SegmentsOf` the input under the markdown heuristic and are never empty; the flags agree with the segments; empty input gives one empty `text` segment with both flags false; each prose segment is `markdown` iff the heuristic accepts it |
| MathParser.ParseContentWithMath | lib/math.ts:27-121 | the segments are `SegmentsOf` the input with every gap typed `text`; they are never empty; every type is `text`, `math_display` or `math_inline`; empty input gives one empty `text` segment |
| MathParser.NoDelimiterIsText | lib/math.ts:101-118 | input without any delimiter match yields exactly one `text` segment equal to the whole input |

## Left out

- `renderMath` (lib/content-parser.ts:15-31, lib/math.ts:9-25) is left out: it calls the external KaTeX library and logs to the console. When KaTeX throws, its fallback wraps the input in `\[ \]` or `\( \)` again.
- The `id` field of math segments is omitted. It embeds `Date.now()` (lib/content-parser.ts:125, lib/math.ts:94), so it is not deterministic.
- JavaScript strings are sequences of UTF-16 code units, and the model's `seq<char>` is a sequence of Unicode scalar values. They agree on text inside the Basic Multilingual Plane. A character outside it, such as an emoji or the math letter 𝑥, is a surrogate pair of two code units in the source but a single `char` here. On such text the offsets `MathMatch.start` and `MathMatch.end` differ from the source's `match.index`. Only the omitted `id` field exposes those offsets. Segment contents and types are unchanged: no character class involved treats a surrogate specially (`[^$\n]`, `[\s\S]`, `\s`, `[^*]` and the `trim` set all accept or reject both halves of a pair alike), and every quantifier needs at least one unit, which a scalar and a pair both supply.
- The sort is represented by one stable sort (insertion), not by the engine's actual algorithm. Every property used is one that any stable sort has.
- Re-inserting the delimiters around the math segments does not give back the input: groups are trimmed and empty math is dropped. `Segmenter.EmptyMathVanishes` exhibits the loss. What the model proves instead is that the gaps and the accepted spans tile the input (`Segmenter.AcceptedTilesText`).
- The source calls the classifier inside the walk and the model passes it in as a function value. Any classifier can be supplied, so the flag and typing properties hold for the heuristic and for the constant `false` of lib/math.ts alike.
- The tie-break between patterns at the same offset is stated in general: a stable sort plus `LaterSameStartDropped`. It never fires on real input, because no two patterns match at the same offset (`PatternsStartApart`, `GatheredCandidates`).
