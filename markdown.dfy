/**
 * The markup heuristic of lib/content-parser.ts:33-47: a prose slice counts as markdown when
 * any of eight fixed regular expressions matches somewhere in it. Each pattern is stated as
 * the set of texts its `test` accepts: some slice of the text belongs to its language.
 */
module Markdown {
  import JsText

  /** Offset `i` begins a line: `^` under the `m` flag matches at the start of the text and after a line terminator. */
  predicate LineStart(s: seq<char>, i: int) {
    i == 0 || (0 < i <= |s| && JsText.IsLineTerminator(s[i - 1]))
  }

  // `\d`: an ASCII digit.
  predicate IsDigit(c: char) {
    '0' <= c <= '9'
  }

  /** No character of `s[lo..hi]` is `c`. */
  predicate Avoids(s: seq<char>, lo: int, hi: int, c: char) {
    forall k :: lo <= k < hi && 0 <= k < |s| ==> s[k] != c
  }

  /** Every character of `s[lo..hi]` satisfies the class `cls`. */
  predicate AllIn(s: seq<char>, lo: int, hi: int, cls: char -> bool) {
    forall k :: lo <= k < hi && 0 <= k < |s| ==> cls(s[k])
  }

  // `/\*\*[^*]+\*\*/`: bold, `**` … `**` around a star-free run: `s[i..]` starts a match.
  predicate BoldAt(s: seq<char>, i: int, j: int) {
    0 <= i && i + 2 < j && j + 1 < |s| && s[i] == '*' && s[i + 1] == '*' && s[j] == '*' && s[j + 1] == '*'
      && Avoids(s, i + 2, j, '*')
  }

  predicate HasBold(s: seq<char>) {
    exists i, j :: 0 <= i < |s| && 0 <= j < |s| && BoldAt(s, i, j)
  }

  // `/\*[^*\n]+\*/`: italic, `*` … `*` around a run free of stars and newlines: `s[i..]` starts a match.
  predicate ItalicAt(s: seq<char>, i: int, j: int) {
    0 <= i && i + 1 < j && j < |s| && s[i] == '*' && s[j] == '*' && Avoids(s, i + 1, j, '*') && Avoids(s, i + 1, j, '\n')
  }

  predicate HasItalic(s: seq<char>) {
    exists i, j :: 0 <= i < |s| && 0 <= j < |s| && ItalicAt(s, i, j)
  }

  // `/^#+\s/m`: a heading, a run of `#` at a line start followed by whitespace: `s[i..]` starts a match.
  predicate HeadingAt(s: seq<char>, i: int, j: int) {
    0 <= i && i < j < |s| && LineStart(s, i) && AllIn(s, i, j, c => c == '#') && JsText.IsWhitespace(s[j])
  }

  predicate HasHeading(s: seq<char>) {
    exists i, j :: 0 <= i < |s| && 0 <= j < |s| && HeadingAt(s, i, j)
  }

  // `/^\*\s+/m`: a `*` bullet, a star at a line start followed by whitespace: `s[i..]` starts a match.
  predicate StarBulletAt(s: seq<char>, i: int) {
    0 <= i && i + 1 < |s| && LineStart(s, i) && s[i] == '*' && JsText.IsWhitespace(s[i + 1])
  }

  predicate HasStarBullet(s: seq<char>) {
    exists i :: 0 <= i < |s| && StarBulletAt(s, i)
  }

  // `/^\d+\.\s/m`: a numbered item, digits at a line start, a dot, whitespace: `s[i..]` starts a match.
  predicate NumberedItemAt(s: seq<char>, i: int, j: int) {
    0 <= i && i < j && j + 1 < |s| && LineStart(s, i) && AllIn(s, i, j, IsDigit) && s[j] == '.'
      && JsText.IsWhitespace(s[j + 1])
  }

  predicate HasNumberedItem(s: seq<char>) {
    exists i, j :: 0 <= i < |s| && 0 <= j < |s| && NumberedItemAt(s, i, j)
  }

  // `/^\-\s+/m`: a `-` bullet, a dash at a line start followed by whitespace: `s[i..]` starts a match.
  predicate DashBulletAt(s: seq<char>, i: int) {
    0 <= i && i + 1 < |s| && LineStart(s, i) && s[i] == '-' && JsText.IsWhitespace(s[i + 1])
  }

  predicate HasDashBullet(s: seq<char>) {
    exists i :: 0 <= i < |s| && DashBulletAt(s, i)
  }

  // `` /`[^`]+`/ ``: inline code, backticks around a backtick-free run: `s[i..]` starts a match.
  predicate InlineCodeAt(s: seq<char>, i: int, j: int) {
    0 <= i && i + 1 < j < |s| && s[i] == '`' && s[j] == '`' && Avoids(s, i + 1, j, '`')
  }

  predicate HasInlineCode(s: seq<char>) {
    exists i, j :: 0 <= i < |s| && 0 <= j < |s| && InlineCodeAt(s, i, j)
  }

  // `/\[[^\]]+\]\([^)]+\)/`: a link `[label](url)`: `s[i..]` starts a match.
  predicate LinkAt(s: seq<char>, i: int, j: int, l: int) {
    0 <= i && i + 1 < j && j + 2 < l < |s| && s[i] == '[' && s[j] == ']' && s[j + 1] == '(' && s[l] == ')'
      && Avoids(s, i + 1, j, ']') && Avoids(s, j + 2, l, ')')
  }

  predicate HasLink(s: seq<char>) {
    exists i, j, l :: 0 <= i < |s| && 0 <= j < |s| && 0 <= l < |s| && LinkAt(s, i, j, l)
  }

  /** The eight patterns, in the order of the source's array. */
  datatype MarkdownPattern = Bold | Italic | Heading | StarBullet | NumberedItem | DashBullet | InlineCode | Link

  const MarkdownPatterns: seq<MarkdownPattern> :=
    [Bold, Italic, Heading, StarBullet, NumberedItem, DashBullet, InlineCode, Link]

  /** `RegExp.prototype.test` for one of the patterns. */
  predicate Test(p: MarkdownPattern, text: seq<char>) {
    match p
    case Bold => HasBold(text)
    case Italic => HasItalic(text)
    case Heading => HasHeading(text)
    case StarBullet => HasStarBullet(text)
    case NumberedItem => HasNumberedItem(text)
    case DashBullet => HasDashBullet(text)
    case InlineCode => HasInlineCode(text)
    case Link => HasLink(text)
  }

  /** `markdownPatterns.some(pattern => pattern.test(text))`. */
  function HasMarkdownSyntax(text: seq<char>): bool {
    exists k :: 0 <= k < |MarkdownPatterns| && Test(MarkdownPatterns[k], text)
  }

  /** The classifier holds exactly when one of the eight patterns occurs in the text. */
  lemma HasMarkdownSyntaxSpec(text: seq<char>)
    ensures HasMarkdownSyntax(text) <==>
      || HasBold(text) || HasItalic(text) || HasHeading(text) || HasStarBullet(text)
      || HasNumberedItem(text) || HasDashBullet(text) || HasInlineCode(text) || HasLink(text)
  {
    var ps := MarkdownPatterns;
    assert ps[0] == Bold && ps[1] == Italic && ps[2] == Heading && ps[3] == StarBullet;
    assert ps[4] == NumberedItem && ps[5] == DashBullet && ps[6] == InlineCode && ps[7] == Link;
  }

  lemma BoldSurvivesSuffix(s: seq<char>, t: seq<char>)
    requires HasBold(s)
    ensures HasBold(s + t)
  {
    var i, j :| 0 <= i < |s| && 0 <= j < |s| && BoldAt(s, i, j);
    assert BoldAt(s + t, i, j);
  }

  lemma ItalicSurvivesSuffix(s: seq<char>, t: seq<char>)
    requires HasItalic(s)
    ensures HasItalic(s + t)
  {
    var i, j :| 0 <= i < |s| && 0 <= j < |s| && ItalicAt(s, i, j);
    assert ItalicAt(s + t, i, j);
  }

  lemma HeadingSurvivesSuffix(s: seq<char>, t: seq<char>)
    requires HasHeading(s)
    ensures HasHeading(s + t)
  {
    var i, j :| 0 <= i < |s| && 0 <= j < |s| && HeadingAt(s, i, j);
    assert HeadingAt(s + t, i, j);
  }

  lemma StarBulletSurvivesSuffix(s: seq<char>, t: seq<char>)
    requires HasStarBullet(s)
    ensures HasStarBullet(s + t)
  {
    var i :| 0 <= i < |s| && StarBulletAt(s, i);
    assert StarBulletAt(s + t, i);
  }

  lemma NumberedItemSurvivesSuffix(s: seq<char>, t: seq<char>)
    requires HasNumberedItem(s)
    ensures HasNumberedItem(s + t)
  {
    var i, j :| 0 <= i < |s| && 0 <= j < |s| && NumberedItemAt(s, i, j);
    assert NumberedItemAt(s + t, i, j);
  }

  lemma DashBulletSurvivesSuffix(s: seq<char>, t: seq<char>)
    requires HasDashBullet(s)
    ensures HasDashBullet(s + t)
  {
    var i :| 0 <= i < |s| && DashBulletAt(s, i);
    assert DashBulletAt(s + t, i);
  }

  lemma InlineCodeSurvivesSuffix(s: seq<char>, t: seq<char>)
    requires HasInlineCode(s)
    ensures HasInlineCode(s + t)
  {
    var i, j :| 0 <= i < |s| && 0 <= j < |s| && InlineCodeAt(s, i, j);
    assert InlineCodeAt(s + t, i, j);
  }

  lemma LinkSurvivesSuffix(s: seq<char>, t: seq<char>)
    requires HasLink(s)
    ensures HasLink(s + t)
  {
    var i, j, l :| 0 <= i < |s| && 0 <= j < |s| && 0 <= l < |s| && LinkAt(s, i, j, l);
    assert LinkAt(s + t, i, j, l);
  }

  /**
   * Appending text never turns markdown into plain prose: every pattern that occurs in `s`
   * still occurs, at the same offsets, in `s + t`.
   */
  lemma MarkdownSurvivesSuffix(s: seq<char>, t: seq<char>)
    requires HasMarkdownSyntax(s)
    ensures HasMarkdownSyntax(s + t)
  {
    HasMarkdownSyntaxSpec(s);
    HasMarkdownSyntaxSpec(s + t);
    if HasBold(s) {
      BoldSurvivesSuffix(s, t);
    } else if HasItalic(s) {
      ItalicSurvivesSuffix(s, t);
    } else if HasHeading(s) {
      HeadingSurvivesSuffix(s, t);
    } else if HasStarBullet(s) {
      StarBulletSurvivesSuffix(s, t);
    } else if HasNumberedItem(s) {
      NumberedItemSurvivesSuffix(s, t);
    } else if HasDashBullet(s) {
      DashBulletSurvivesSuffix(s, t);
    } else if HasInlineCode(s) {
      InlineCodeSurvivesSuffix(s, t);
    } else if HasLink(s) {
      LinkSurvivesSuffix(s, t);
    }
  }

  /** A character that some pattern needs: each of the eight languages contains one of these. */
  predicate IsMarkupChar(c: char) {
    c == '*' || c == '#' || c == '.' || c == '-' || c == '`' || c == '['
  }

  /** Prose without any of `* # . - ` [` is never classified as markdown. */
  lemma PlainProseIsNotMarkdown(s: seq<char>)
    requires forall k :: 0 <= k < |s| ==> !IsMarkupChar(s[k])
    ensures !HasMarkdownSyntax(s)
  {
    HasMarkdownSyntaxSpec(s);
    forall i, j | 0 <= i < |s| && 0 <= j < |s|
      ensures !HeadingAt(s, i, j) && !NumberedItemAt(s, i, j)
    {
      assert !IsMarkupChar(s[i]) && !IsMarkupChar(s[j]);
    }
  }

  /** A dash bullet on the first line makes the whole text markdown. */
  lemma DashBulletExample()
    ensures HasMarkdownSyntax("- item one\nplain line")
  {
    var s := "- item one\nplain line";
    assert DashBulletAt(s, 0);
    assert HasDashBullet(s);
    HasMarkdownSyntaxSpec(s);
  }
}
