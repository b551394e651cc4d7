/**
 * The two string primitives of the JavaScript runtime that the segmenters rely on:
 * the character class `\s` of regular expressions and `String.prototype.trim`.
 * Both use the same set of characters (WhiteSpace and LineTerminator of ECMA-262).
 * A `char` is a Unicode scalar value; every character listed here is a single UTF-16 code unit.
 */
module JsText {

  /** LineTerminator (section 12.3 of ECMA-262): LF, CR, LINE SEPARATOR, PARAGRAPH SEPARATOR. */
  predicate IsLineTerminator(c: char) {
    c == '\n' || c == '\r' || c == '\U{2028}' || c == '\U{2029}'
  }

  /** WhiteSpace (section 12.2 of ECMA-262, with the Zs category of Unicode written out) or a line terminator. */
  predicate IsWhitespace(c: char) {
    || c == '\t' || c == '\U{000B}' || c == '\U{000C}' || c == ' ' || c == '\U{00A0}' || c == '\U{FEFF}'
    || c == '\U{1680}' || ('\U{2000}' <= c <= '\U{200A}') || c == '\U{202F}' || c == '\U{205F}' || c == '\U{3000}'
    || IsLineTerminator(c)
  }

  predicate AllWhitespace(s: seq<char>) {
    forall k :: 0 <= k < |s| ==> IsWhitespace(s[k])
  }

  /** `s` without its leading whitespace. */
  function TrimStart(s: seq<char>): seq<char> {
    if s != [] && IsWhitespace(s[0]) then TrimStart(s[1..]) else s
  }

  /** `s` without its trailing whitespace. */
  function TrimEnd(s: seq<char>): seq<char> {
    if s != [] && IsWhitespace(s[|s| - 1]) then TrimEnd(s[..|s| - 1]) else s
  }

  /** `String.prototype.trim`: `s` without its leading and trailing whitespace. */
  function Trim(s: seq<char>): seq<char> {
    TrimEnd(TrimStart(s))
  }

  /** `r` is the slice of `s` starting at `a`, and everything of `s` around it is whitespace. */
  predicate TrimmedAt(s: seq<char>, r: seq<char>, a: nat) {
    a + |r| <= |s| && r == s[a..a + |r|] && AllWhitespace(s[..a]) && AllWhitespace(s[a + |r|..])
  }

  lemma {:induction false} TrimStartSpec(s: seq<char>)
    ensures |TrimStart(s)| <= |s|
    ensures TrimStart(s) == s[|s| - |TrimStart(s)|..]
    ensures AllWhitespace(s[..|s| - |TrimStart(s)|])
    ensures TrimStart(s) != [] ==> !IsWhitespace(TrimStart(s)[0])
  {
    if s != [] && IsWhitespace(s[0]) {
      TrimStartSpec(s[1..]);
      var n := |s| - |TrimStart(s)|;
      assert s[..n] == [s[0]] + s[1..][..n - 1];
    }
  }

  lemma {:induction false} TrimEndSpec(s: seq<char>)
    ensures |TrimEnd(s)| <= |s|
    ensures TrimEnd(s) == s[..|TrimEnd(s)|]
    ensures AllWhitespace(s[|TrimEnd(s)|..])
    ensures TrimEnd(s) != [] ==> !IsWhitespace(TrimEnd(s)[|TrimEnd(s)| - 1])
  {
    if s != [] && IsWhitespace(s[|s| - 1]) {
      var t := s[..|s| - 1];
      TrimEndSpec(t);
      var n := |TrimEnd(s)|;
      assert s[n..] == t[n..] + [s[|s| - 1]];
    }
  }

  /**
   * What `trim` returns: a slice of `s` with only whitespace around it in `s`, which neither
   * starts nor ends with whitespace; it is empty exactly when `s` is all whitespace.
   */
  lemma TrimSpec(s: seq<char>)
    ensures exists a :: TrimmedAt(s, Trim(s), a)
    ensures Trim(s) != [] ==> !IsWhitespace(Trim(s)[0]) && !IsWhitespace(Trim(s)[|Trim(s)| - 1])
    ensures Trim(s) == [] <==> AllWhitespace(s)
  {
    var t := TrimStart(s);
    var r := Trim(s);
    TrimStartSpec(s);
    TrimEndSpec(t);
    var a := |s| - |t|;
    assert r == s[a..a + |r|];
    assert s[a + |r|..] == t[|r|..];
    assert TrimmedAt(s, r, a);
    if r == [] {
      assert s == s[..a] + t[|r|..];
    }
  }

  /** Trimming twice is trimming once. */
  lemma TrimIdempotent(s: seq<char>)
    ensures Trim(Trim(s)) == Trim(s)
  {
    TrimSpec(s);
    var r := Trim(s);
    if r != [] {
      assert TrimStart(r) == r;
      assert TrimEnd(r) == r;
    }
  }
}
