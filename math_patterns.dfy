/**
 * The three math-delimiter regular expressions of lib/content-parser.ts and lib/math.ts
 * and the global scan that collects their matches:
 *   display  `\[ ... \]`  (lazy, any character inside, newlines included),
 *   inline   `\( ... \)`  (lazy, any character inside),
 *   inline   `$ ... $`    (at least one character inside, none of them `$` or a newline).
 * The regular-expression engine is described at two levels: `InLanguage` says which slices
 * a pattern matches, and `MatchAt`/`Exec` are the anchored and the leftmost search the
 * engine performs, proved against it.
 */
module MathPatterns {
  import opened Wrappers
  import JsText

  /** The delimiter patterns, in the order the parsers scan them. */
  datatype Delim = DisplayBracket | InlineParen | InlineDollar

  const ScanOrder: seq<Delim> := [DisplayBracket, InlineParen, InlineDollar]

  /** The width of the opening delimiter, which is also that of the closing one. */
  function Width(d: Delim): nat {
    if d == InlineDollar then 1 else 2
  }

  /** The character after the backslash that opens a bracket pattern. */
  function OpenChar(d: Delim): char {
    if d == DisplayBracket then '[' else '('
  }

  /** The character after the backslash that closes a bracket pattern. */
  function CloseChar(d: Delim): char {
    if d == DisplayBracket then ']' else ')'
  }

  /** The two characters `c1 c2` occur in `s` at offset `k`. */
  predicate PairAt(s: seq<char>, k: int, c1: char, c2: char) {
    0 <= k && k + 1 < |s| && s[k] == c1 && s[k + 1] == c2
  }

  /** A character the `$` pattern does not allow between its delimiters. */
  predicate IsDollarStop(c: char) {
    c == '$' || c == '\n'
  }

  /** The slice `s[i..e]` belongs to the language of pattern `d` (whichever match laziness picks). */
  predicate InLanguage(s: seq<char>, d: Delim, i: nat, e: nat) {
    if d == InlineDollar then
      && i + 3 <= e <= |s|
      && s[i] == '$' && s[e - 1] == '$'
      && forall k :: i < k < e - 1 ==> !IsDollarStop(s[k])
    else
      && i + 4 <= e <= |s|
      && PairAt(s, i, '\\', OpenChar(d))
      && PairAt(s, e - 2, '\\', CloseChar(d))
  }

  /** The result of `RegExp.prototype.exec`: `index`, `index + match[0].length`, and `match[1]`. */
  datatype RegexMatch = RegexMatch(index: nat, end: nat, group: seq<char>)

  /** The first offset at or after `j` where the pair `c1 c2` occurs. */
  function FindPair(s: seq<char>, c1: char, c2: char, j: nat): (r: Option<nat>)
    decreases |s| - j
    ensures r.Some? ==> j <= r.value && PairAt(s, r.value, c1, c2)
  {
    if j + 1 >= |s| then None
    else if s[j] == c1 && s[j + 1] == c2 then Some(j)
    else FindPair(s, c1, c2, j + 1)
  }

  /** `FindPair` finds the first occurrence: none occurs before it, and none at all when it fails. */
  lemma {:induction false} FindPairIsFirst(s: seq<char>, c1: char, c2: char, j: nat)
    decreases |s| - j
    ensures FindPair(s, c1, c2, j).Some? ==> forall k :: j <= k < FindPair(s, c1, c2, j).value ==> !PairAt(s, k, c1, c2)
    ensures FindPair(s, c1, c2, j).None? ==> forall k :: j <= k ==> !PairAt(s, k, c1, c2)
  {
    if j + 1 < |s| && !(s[j] == c1 && s[j + 1] == c2) {
      FindPairIsFirst(s, c1, c2, j + 1);
    }
  }

  /** The first offset at or after `j` holding a `$` or a newline. */
  function FindStop(s: seq<char>, j: nat): (r: Option<nat>)
    decreases |s| - j
    ensures r.Some? ==> j <= r.value < |s| && IsDollarStop(s[r.value])
  {
    if j >= |s| then None
    else if IsDollarStop(s[j]) then Some(j)
    else FindStop(s, j + 1)
  }

  /** `FindStop` finds the first stop character: none occurs before it, and none at all when it fails. */
  lemma {:induction false} FindStopIsFirst(s: seq<char>, j: nat)
    decreases |s| - j
    ensures FindStop(s, j).Some? ==> forall k :: j <= k < FindStop(s, j).value ==> !IsDollarStop(s[k])
    ensures FindStop(s, j).None? ==> forall k :: j <= k < |s| ==> !IsDollarStop(s[k])
  {
    if j < |s| && !IsDollarStop(s[j]) {
      FindStopIsFirst(s, j + 1);
    }
  }

  /**
   * The pattern anchored at offset `i`: the shortest slice starting at `i` in its language
   * (the lazy quantifier), with the text between the delimiters as the captured group.
   */
  function MatchAt(s: seq<char>, d: Delim, i: nat): (r: Option<RegexMatch>)
    ensures r.Some? ==> r.value.index == i && i + 3 <= r.value.end && i + 2 * Width(d) <= r.value.end <= |s|
    ensures r.Some? ==> r.value.group == s[i + Width(d)..r.value.end - Width(d)]
  {
    if d == InlineDollar then
      if i < |s| && s[i] == '$' then
        match FindStop(s, i + 1)
        case Some(j) =>
          if j > i + 1 && s[j] == '$' then Some(RegexMatch(i, j + 1, s[i + 1..j])) else None
        case None => None
      else None
    else if PairAt(s, i, '\\', OpenChar(d)) then
      match FindPair(s, '\\', CloseChar(d), i + 2)
      case Some(j) => Some(RegexMatch(i, j + 2, s[i + 2..j]))
      case None => None
    else None
  }

  /**
   * The anchored match is the lazy one: it exists exactly when some slice starting at `i` is
   * in the pattern's language, and then it is the shortest such slice.
   */
  lemma MatchAtSpec(s: seq<char>, d: Delim, i: nat)
    ensures MatchAt(s, d, i).Some? ==> InLanguage(s, d, i, MatchAt(s, d, i).value.end)
    ensures MatchAt(s, d, i).Some? ==> forall e: nat :: e < MatchAt(s, d, i).value.end ==> !InLanguage(s, d, i, e)
    ensures MatchAt(s, d, i).None? ==> forall e: nat :: !InLanguage(s, d, i, e)
  {
    if d == InlineDollar {
      FindStopIsFirst(s, i + 1);
    } else {
      FindPairIsFirst(s, '\\', CloseChar(d), i + 2);
    }
  }

  /**
   * `RegExp.prototype.exec` on a global pattern whose `lastIndex` is `from`:
   * the match at the smallest offset at or after `from`, or none.
   */
  function Exec(s: seq<char>, d: Delim, from: nat): (r: Option<RegexMatch>)
    decreases |s| + 1 - from
    ensures r.Some? ==> from <= r.value.index && MatchAt(s, d, r.value.index) == r
  {
    if from > |s| then None
    else
      match MatchAt(s, d, from)
      case Some(m) => Some(m)
      case None => Exec(s, d, from + 1)
  }

  /** No match starts past the end of the text. */
  lemma NoMatchPastEnd(s: seq<char>, d: Delim, from: nat)
    requires from > |s|
    ensures NoMatchFrom(s, d, from)
  {
    forall i | from <= i
      ensures MatchAt(s, d, i).None?
    {
      var r := MatchAt(s, d, i);
    }
  }

  /** No match starts in `[lo, hi)`. */
  predicate NoMatchIn(s: seq<char>, d: Delim, lo: nat, hi: nat) {
    forall i :: lo <= i < hi ==> MatchAt(s, d, i).None?
  }

  lemma NoMatchExtend(s: seq<char>, d: Delim, lo: nat, hi: nat)
    requires MatchAt(s, d, lo).None? && NoMatchIn(s, d, lo + 1, hi)
    ensures NoMatchIn(s, d, lo, hi)
  {
  }

  lemma {:induction false} ExecSkips(s: seq<char>, d: Delim, from: nat)
    decreases |s| + 1 - from
    ensures Exec(s, d, from).Some? ==> NoMatchIn(s, d, from, Exec(s, d, from).value.index)
  {
    if from <= |s| && MatchAt(s, d, from).None? {
      ExecSkips(s, d, from + 1);
      var r := Exec(s, d, from + 1);
      assert Exec(s, d, from) == r;
      if r.Some? {
        NoMatchExtend(s, d, from, r.value.index);
      }
    }
  }

  /** No match starts at or after `lo`. */
  ghost predicate NoMatchFrom(s: seq<char>, d: Delim, lo: nat) {
    forall i :: lo <= i ==> MatchAt(s, d, i).None?
  }

  lemma NoMatchFromExtend(s: seq<char>, d: Delim, lo: nat)
    requires MatchAt(s, d, lo).None? && NoMatchFrom(s, d, lo + 1)
    ensures NoMatchFrom(s, d, lo)
  {
  }

  lemma {:induction false} ExecFails(s: seq<char>, d: Delim, from: nat)
    decreases |s| + 1 - from
    ensures Exec(s, d, from).None? ==> NoMatchFrom(s, d, from)
  {
    if from > |s| {
      NoMatchPastEnd(s, d, from);
    } else if MatchAt(s, d, from).None? {
      ExecFails(s, d, from + 1);
      if Exec(s, d, from + 1).None? {
        NoMatchFromExtend(s, d, from);
      }
    }
  }

  /** `exec` finds the leftmost match: no offset between `from` and its result matches. */
  lemma ExecIsLeftmost(s: seq<char>, d: Delim, from: nat)
    ensures Exec(s, d, from).Some? ==> forall i :: from <= i < Exec(s, d, from).value.index ==> MatchAt(s, d, i).None?
    ensures Exec(s, d, from).None? ==> forall i :: from <= i ==> MatchAt(s, d, i).None?
  {
    ExecSkips(s, d, from);
    ExecFails(s, d, from);
  }

  /**
   * The matches collected by `while ((m = re.exec(s)) !== null)` when `lastIndex` starts at
   * `from`: after each match the search resumes at its end.
   */
  function Scan(s: seq<char>, d: Delim, from: nat): seq<RegexMatch>
    decreases |s| + 1 - from
  {
    match Exec(s, d, from)
    case None => []
    case Some(m) => [m] + Scan(s, d, m.end)
  }

  /** Where the search for the `k`-th match of `ms` starts. */
  function ResumeAt(from: nat, ms: seq<RegexMatch>, k: nat): nat
    requires k <= |ms|
  {
    if k == 0 then from else ms[k - 1].end
  }

  /** Every element of `ms` is the match at its own offset, found at or after its resume point. */
  ghost predicate ScanFound(s: seq<char>, d: Delim, from: nat, ms: seq<RegexMatch>) {
    && ResumesBefore(from, ms)
    && forall k :: 0 <= k < |ms| ==> MatchAt(s, d, ms[k].index) == Some(ms[k])
  }

  /** Every element starts at or after its resume point. */
  predicate ResumesBefore(from: nat, ms: seq<RegexMatch>) {
    forall k :: 0 <= k < |ms| ==> ResumeAt(from, ms, k) <= ms[k].index
  }

  /** No match starts between a resume point and the next element (leftmost). */
  ghost predicate ScanSkipsNone(s: seq<char>, d: Delim, from: nat, ms: seq<RegexMatch>) {
    forall k, i :: 0 <= k < |ms| && ResumeAt(from, ms, k) <= i < ms[k].index ==> MatchAt(s, d, i).None?
  }

  /** No match starts after the end of the last element. */
  ghost predicate ScanExhausted(s: seq<char>, d: Delim, from: nat, ms: seq<RegexMatch>) {
    forall i :: ResumeAt(from, ms, |ms|) <= i ==> MatchAt(s, d, i).None?
  }

  /** The elements do not overlap and come in ascending order. */
  ghost predicate ScanDisjoint(ms: seq<RegexMatch>) {
    forall i, j :: 0 <= i < j < |ms| ==> ms[i].end <= ms[j].index
  }

  /** `ms` is the leftmost, non-overlapping global scan of `s` by `d` from `from`. */
  ghost predicate IsGlobalScan(s: seq<char>, d: Delim, from: nat, ms: seq<RegexMatch>) {
    ScanFound(s, d, from, ms) && ScanSkipsNone(s, d, from, ms) && ScanExhausted(s, d, from, ms) && ScanDisjoint(ms)
  }

  /** One step of the scan: a match is found, and the search resumes at its end. */
  lemma ScanStep(s: seq<char>, d: Delim, from: nat)
    requires Exec(s, d, from).Some?
    ensures var m := Exec(s, d, from).value;
      && m.index + 3 <= m.end <= |s|
      && Scan(s, d, from) == [m] + Scan(s, d, m.end)
  {
    var m := Exec(s, d, from).value;
    assert MatchAt(s, d, m.index) == Some(m);
  }

  // Each property of the scan is proved in two parts: a lemma about one more match in front
  // of a list that already has it, and an induction that follows the calls to `exec`.

  lemma ResumeCons(from: nat, m: RegexMatch, rest: seq<RegexMatch>)
    requires from <= m.index
    requires ResumesBefore(m.end, rest)
    ensures ResumesBefore(from, [m] + rest)
  {
    var ms := [m] + rest;
    forall k | 0 <= k < |ms|
      ensures ResumeAt(from, ms, k) <= ms[k].index
    {
      if k > 0 {
        assert ms[k] == rest[k - 1];
        assert ResumeAt(from, ms, k) == ResumeAt(m.end, rest, k - 1);
      }
    }
  }

  lemma MatchesCons(s: seq<char>, d: Delim, m: RegexMatch, rest: seq<RegexMatch>)
    requires MatchAt(s, d, m.index) == Some(m)
    requires forall k :: 0 <= k < |rest| ==> MatchAt(s, d, rest[k].index) == Some(rest[k])
    ensures forall k :: 0 <= k < |rest| + 1 ==> MatchAt(s, d, ([m] + rest)[k].index) == Some(([m] + rest)[k])
  {
    var ms := [m] + rest;
    forall k | 0 <= k < |ms|
      ensures MatchAt(s, d, ms[k].index) == Some(ms[k])
    {
      if k > 0 {
        assert ms[k] == rest[k - 1];
      }
    }
  }

  lemma FoundCons(s: seq<char>, d: Delim, from: nat, m: RegexMatch, rest: seq<RegexMatch>)
    requires from <= m.index && MatchAt(s, d, m.index) == Some(m)
    requires ScanFound(s, d, m.end, rest)
    ensures ScanFound(s, d, from, [m] + rest)
  {
    ResumeCons(from, m, rest);
    MatchesCons(s, d, m, rest);
  }

  lemma {:induction false} ScanFindsMatches(s: seq<char>, d: Delim, from: nat)
    decreases |s| + 1 - from
    ensures ScanFound(s, d, from, Scan(s, d, from))
  {
    if Exec(s, d, from).Some? {
      var m := Exec(s, d, from).value;
      ScanStep(s, d, from);
      ScanFindsMatches(s, d, m.end);
      FoundCons(s, d, from, m, Scan(s, d, m.end));
    }
  }

  lemma SkipsNoneCons(s: seq<char>, d: Delim, from: nat, m: RegexMatch, rest: seq<RegexMatch>)
    requires forall i :: from <= i < m.index ==> MatchAt(s, d, i).None?
    requires ScanSkipsNone(s, d, m.end, rest)
    ensures ScanSkipsNone(s, d, from, [m] + rest)
  {
    var ms := [m] + rest;
    forall k, i | 0 <= k < |ms| && ResumeAt(from, ms, k) <= i < ms[k].index
      ensures MatchAt(s, d, i).None?
    {
      if k > 0 {
        assert ms[k] == rest[k - 1];
        assert ResumeAt(m.end, rest, k - 1) <= i < rest[k - 1].index;
      }
    }
  }

  lemma {:induction false} ScanSkipsNothing(s: seq<char>, d: Delim, from: nat)
    decreases |s| + 1 - from
    ensures ScanSkipsNone(s, d, from, Scan(s, d, from))
  {
    if Exec(s, d, from).Some? {
      var m := Exec(s, d, from).value;
      ScanStep(s, d, from);
      ExecIsLeftmost(s, d, from);
      ScanSkipsNothing(s, d, m.end);
      SkipsNoneCons(s, d, from, m, Scan(s, d, m.end));
    }
  }

  lemma {:induction false} ScanRunsOut(s: seq<char>, d: Delim, from: nat)
    decreases |s| + 1 - from
    ensures ScanExhausted(s, d, from, Scan(s, d, from))
  {
    ExecIsLeftmost(s, d, from);
    if Exec(s, d, from).Some? {
      var m := Exec(s, d, from).value;
      ScanStep(s, d, from);
      ScanRunsOut(s, d, m.end);
      var rest := Scan(s, d, m.end);
      assert ResumeAt(from, [m] + rest, |[m] + rest|) == ResumeAt(m.end, rest, |rest|);
    }
  }

  lemma ScanIsLeftmost(s: seq<char>, d: Delim, from: nat)
    ensures ScanSkipsNone(s, d, from, Scan(s, d, from))
    ensures ScanExhausted(s, d, from, Scan(s, d, from))
  {
    ScanSkipsNothing(s, d, from);
    ScanRunsOut(s, d, from);
  }

  /** Each element starts at or after its resume point and ends after it starts. */
  predicate Chained(from: nat, ms: seq<RegexMatch>) {
    ResumesBefore(from, ms) && forall k :: 0 <= k < |ms| ==> ms[k].index < ms[k].end
  }

  lemma ChainedCons(from: nat, m: RegexMatch, rest: seq<RegexMatch>)
    requires from <= m.index < m.end && Chained(m.end, rest)
    ensures Chained(from, [m] + rest)
  {
    ResumeCons(from, m, rest);
    var ms := [m] + rest;
    forall k | 0 <= k < |ms|
      ensures ms[k].index < ms[k].end
    {
      if k > 0 {
        assert ms[k] == rest[k - 1];
      }
    }
  }

  lemma {:induction false} ScanChained(s: seq<char>, d: Delim, from: nat)
    decreases |s| + 1 - from
    ensures Chained(from, Scan(s, d, from))
  {
    if Exec(s, d, from).Some? {
      var m := Exec(s, d, from).value;
      ScanStep(s, d, from);
      ScanChained(s, d, m.end);
      ChainedCons(from, m, Scan(s, d, m.end));
    }
  }

  lemma ChainedTail(from: nat, ms: seq<RegexMatch>)
    requires Chained(from, ms) && ms != []
    ensures Chained(ms[0].end, ms[1..])
  {
    var rest := ms[1..];
    forall k | 0 <= k < |rest|
      ensures ResumeAt(ms[0].end, rest, k) <= rest[k].index
    {
      assert rest[k] == ms[k + 1];
      assert ResumeAt(from, ms, k + 1) == ResumeAt(ms[0].end, rest, k);
    }
    forall k | 0 <= k < |rest|
      ensures rest[k].index < rest[k].end
    {
      assert rest[k] == ms[k + 1];
    }
  }

  /** A chained list is disjoint: each element ends no later than the next one starts. */
  lemma {:induction false} ChainedDisjoint(from: nat, ms: seq<RegexMatch>)
    requires Chained(from, ms)
    ensures ScanDisjoint(ms)
    decreases |ms|
  {
    if ms != [] {
      var rest := ms[1..];
      ChainedTail(from, ms);
      ChainedDisjoint(ms[0].end, rest);
      forall i, j | 0 <= i < j < |ms|
        ensures ms[i].end <= ms[j].index
      {
        if i == 0 {
          assert ResumeAt(from, ms, 1) <= ms[1].index;
          if j > 1 {
            assert ms[1] == rest[0] && ms[j] == rest[j - 1];
            assert rest[0].end <= rest[j - 1].index;
          }
        } else {
          assert ms[i] == rest[i - 1] && ms[j] == rest[j - 1];
        }
      }
    }
  }

  lemma ScanIsDisjoint(s: seq<char>, d: Delim, from: nat)
    ensures ScanDisjoint(Scan(s, d, from))
  {
    ScanChained(s, d, from);
    ChainedDisjoint(from, Scan(s, d, from));
  }

  /** The scan `exec` performs is the leftmost, non-overlapping global scan. */
  lemma ScanIsGlobalScan(s: seq<char>, d: Delim, from: nat)
    ensures IsGlobalScan(s, d, from, Scan(s, d, from))
  {
    ScanFindsMatches(s, d, from);
    ScanIsLeftmost(s, d, from);
    ScanIsDisjoint(s, d, from);
  }

  /** The type the parsers give a match: `'display'` for the `\[` pattern, `'inline'` otherwise. */
  datatype MathKind = Display | Inline

  /** The record pushed for each match: offsets, trimmed group, and type. */
  datatype MathMatch = MathMatch(start: nat, end: nat, content: seq<char>, kind: MathKind)

  function KindOf(d: Delim): MathKind {
    if d == DisplayBracket then Display else Inline
  }

  function ToMathMatch(m: RegexMatch, d: Delim): MathMatch {
    MathMatch(m.index, m.end, JsText.Trim(m.group), KindOf(d))
  }

  /** The records one pattern contributes, in scan order: one per match of `Scan`. */
  function ScanRecords(s: seq<char>, d: Delim, from: nat): seq<MathMatch>
    decreases |s| + 1 - from
  {
    match Exec(s, d, from)
    case None => []
    case Some(m) => [ToMathMatch(m, d)] + ScanRecords(s, d, m.end)
  }

  function CandidatesOf(s: seq<char>, d: Delim): seq<MathMatch> {
    ScanRecords(s, d, 0)
  }

  /** One step of the scan, seen through the records it pushes. */
  lemma ScanRecordsStep(s: seq<char>, d: Delim, from: nat)
    requires Exec(s, d, from).Some?
    ensures var m := Exec(s, d, from).value;
      && m.index + 3 <= m.end <= |s|
      && ScanRecords(s, d, from) == [ToMathMatch(m, d)] + ScanRecords(s, d, m.end)
  {
    var m := Exec(s, d, from).value;
    assert MatchAt(s, d, m.index) == Some(m);
  }

  /** The records are the matches of the scan, converted one by one. */
  lemma {:induction false} ScanRecordsMirrorScan(s: seq<char>, d: Delim, from: nat)
    decreases |s| + 1 - from
    ensures |ScanRecords(s, d, from)| == |Scan(s, d, from)|
    ensures forall k :: 0 <= k < |Scan(s, d, from)| ==> ScanRecords(s, d, from)[k] == ToMathMatch(Scan(s, d, from)[k], d)
  {
    if Exec(s, d, from).Some? {
      var m := Exec(s, d, from).value;
      ScanStep(s, d, from);
      ScanRecordsStep(s, d, from);
      ScanRecordsMirrorScan(s, d, m.end);
    }
  }

  /**
   * The scanning loop for one pattern (lib/content-parser.ts:71-80): reset `lastIndex`, call
   * `exec` until it fails, and push one record per match.
   */
  method ScanPattern(s: seq<char>, d: Delim) returns (found: seq<MathMatch>)
    ensures found == CandidatesOf(s, d)
  {
    found := [];
    var lastIndex: nat := 0;
    while true
      invariant lastIndex <= |s|
      invariant CandidatesOf(s, d) == found + ScanRecords(s, d, lastIndex)
      decreases |s| + 1 - lastIndex
    {
      var m := Exec(s, d, lastIndex);
      if m.None? {
        ScanRecordsDone(s, d, found, lastIndex);
        break;
      }
      ScanRecordsPush(s, d, found, lastIndex);
      found := found + [ToMathMatch(m.value, d)];
      lastIndex := m.value.end;
    }
  }

  lemma ScanRecordsDone(s: seq<char>, d: Delim, found: seq<MathMatch>, from: nat)
    requires Exec(s, d, from).None? && CandidatesOf(s, d) == found + ScanRecords(s, d, from)
    ensures found == CandidatesOf(s, d)
  {
    assert found + [] == found;
  }

  lemma ScanRecordsPush(s: seq<char>, d: Delim, found: seq<MathMatch>, from: nat)
    requires Exec(s, d, from).Some? && CandidatesOf(s, d) == found + ScanRecords(s, d, from)
    ensures var m := Exec(s, d, from).value;
      && from < m.end <= |s|
      && CandidatesOf(s, d) == found + [ToMathMatch(m, d)] + ScanRecords(s, d, m.end)
  {
    var m := Exec(s, d, from).value;
    ScanRecordsStep(s, d, from);
    var rest := ScanRecords(s, d, m.end);
    assert found + ([ToMathMatch(m, d)] + rest) == found + [ToMathMatch(m, d)] + rest;
  }

  /** `m` is the record of the match pattern `d` makes at offset `m.start`. */
  predicate FoundBy(s: seq<char>, d: Delim, m: MathMatch) {
    MatchAt(s, d, m.start).Some? && m == ToMathMatch(MatchAt(s, d, m.start).value, d)
  }

  /**
   * Every record of one pattern is that pattern's match at its start, and the records are
   * pairwise disjoint in ascending order.
   */
  lemma CandidatesOfFound(s: seq<char>, d: Delim)
    ensures forall m :: m in CandidatesOf(s, d) ==> FoundBy(s, d, m)
    ensures forall i, j :: 0 <= i < j < |CandidatesOf(s, d)| ==> CandidatesOf(s, d)[i].end <= CandidatesOf(s, d)[j].start
  {
    ScanIsGlobalScan(s, d, 0);
    ScanRecordsMirrorScan(s, d, 0);
    var ms, cs := Scan(s, d, 0), CandidatesOf(s, d);
    forall m | m in cs
      ensures FoundBy(s, d, m)
    {
      var k :| 0 <= k < |cs| && cs[k] == m;
      assert MatchAt(s, d, ms[k].index) == Some(ms[k]);
    }
    forall i, j | 0 <= i < j < |cs|
      ensures cs[i].end <= cs[j].start
    {
      assert ms[i].end <= ms[j].index;
    }
  }

  /** A record found by any pattern spans at least three characters of the input. */
  lemma FoundBounds(s: seq<char>, d: Delim, m: MathMatch)
    requires FoundBy(s, d, m)
    ensures m.start + 3 <= m.end <= |s|
    ensures JsText.Trim(s[m.start + Width(d)..m.end - Width(d)]) == m.content
    ensures m.kind == Display <==> d == DisplayBracket
  {
    var r := MatchAt(s, d, m.start).value;
    assert r.group == s[m.start + Width(d)..m.end - Width(d)];
  }

  /**
   * A `$` match has a non-empty group holding neither `$` nor a newline; the bracket patterns
   * start with a backslash and end with a backslash and the closing character.
   */
  lemma DelimiterShape(s: seq<char>, d: Delim, i: nat)
    requires MatchAt(s, d, i).Some?
    ensures var m := MatchAt(s, d, i).value;
      if d == InlineDollar then
        && s[i] == '$' && s[m.end - 1] == '$' && |m.group| >= 1
        && forall k :: 0 <= k < |m.group| ==> !IsDollarStop(m.group[k])
      else
        && s[i..i + 2] == ['\\', OpenChar(d)] && s[m.end - 2..m.end] == ['\\', CloseChar(d)]
  {
    var m := MatchAt(s, d, i).value;
    MatchAtSpec(s, d, i);
    if d == InlineDollar {
      forall k | 0 <= k < |m.group|
        ensures !IsDollarStop(m.group[k])
      {
        assert m.group[k] == s[i + 1 + k];
      }
    }
  }

  /** No two of the three patterns can match at the same offset: their first characters differ. */
  lemma PatternsStartApart(s: seq<char>, d1: Delim, d2: Delim, i: nat)
    requires MatchAt(s, d1, i).Some? && MatchAt(s, d2, i).Some?
    ensures d1 == d2
  {
  }

  /** The records of the patterns `ds`, concatenated in scan order (lib/content-parser.ts:70-81). */
  function Gather(s: seq<char>, ds: seq<Delim>): seq<MathMatch>
    decreases |ds|
  {
    if ds == [] then [] else Gather(s, ds[..|ds| - 1]) + CandidatesOf(s, ds[|ds| - 1])
  }

  /** Some pattern found `m`. */
  predicate FoundByAny(s: seq<char>, m: MathMatch) {
    FoundBy(s, DisplayBracket, m) || FoundBy(s, InlineParen, m) || FoundBy(s, InlineDollar, m)
  }

  /** The merged list is the display records, then the `\(` records, then the `$` records. */
  lemma GatherScanOrder(s: seq<char>)
    ensures Gather(s, ScanOrder) == CandidatesOf(s, DisplayBracket) + CandidatesOf(s, InlineParen) + CandidatesOf(s, InlineDollar)
  {
    assert ScanOrder[..1][..0] == [] && ScanOrder[..2][..1] == ScanOrder[..1] && ScanOrder[..2] == ScanOrder[..|ScanOrder| - 1];
    assert Gather(s, ScanOrder[..1]) == CandidatesOf(s, DisplayBracket);
    assert Gather(s, ScanOrder[..2]) == CandidatesOf(s, DisplayBracket) + CandidatesOf(s, InlineParen);
  }

  /** Records of two different patterns never share a start. */
  lemma FoundApart(s: seq<char>, d1: Delim, d2: Delim, m1: MathMatch, m2: MathMatch)
    requires FoundBy(s, d1, m1) && FoundBy(s, d2, m2) && d1 != d2
    ensures m1.start != m2.start
  {
    if m1.start == m2.start {
      PatternsStartApart(s, d1, d2, m1.start);
    }
  }

  /** Records of one pattern have strictly increasing starts. */
  lemma CandidatesOfStartsIncrease(s: seq<char>, d: Delim)
    ensures forall i, j :: 0 <= i < j < |CandidatesOf(s, d)| ==> CandidatesOf(s, d)[i].start < CandidatesOf(s, d)[j].start
  {
    var cs := CandidatesOf(s, d);
    CandidatesOfFound(s, d);
    forall i, j | 0 <= i < j < |cs|
      ensures cs[i].start < cs[j].start
    {
      assert cs[i] in cs;
      FoundBounds(s, d, cs[i]);
    }
  }

  /**
   * The merged list holds only real matches, and no two of its records share a start: within
   * one pattern the matches are disjoint, and across patterns `PatternsStartApart` applies.
   */
  lemma GatheredCandidates(s: seq<char>)
    ensures forall m :: m in Gather(s, ScanOrder) ==> FoundByAny(s, m)
    ensures forall i, j :: 0 <= i < j < |Gather(s, ScanOrder)| ==> Gather(s, ScanOrder)[i].start != Gather(s, ScanOrder)[j].start
  {
    var c1, c2, c3 := CandidatesOf(s, DisplayBracket), CandidatesOf(s, InlineParen), CandidatesOf(s, InlineDollar);
    GatherScanOrder(s);
    var all := Gather(s, ScanOrder);
    CandidatesOfFound(s, DisplayBracket);
    CandidatesOfFound(s, InlineParen);
    CandidatesOfFound(s, InlineDollar);
    CandidatesOfStartsIncrease(s, DisplayBracket);
    CandidatesOfStartsIncrease(s, InlineParen);
    CandidatesOfStartsIncrease(s, InlineDollar);
    forall m | m in all
      ensures FoundByAny(s, m)
    {
      assert m in c1 || m in c2 || m in c3;
    }
    forall i, j | 0 <= i < j < |all|
      ensures all[i].start != all[j].start
    {
      var n1, n2 := |c1|, |c1| + |c2|;
      if j < n1 {
        assert all[i] == c1[i] && all[j] == c1[j];
      } else if i >= n2 {
        assert all[i] == c3[i - n2] && all[j] == c3[j - n2];
      } else if n1 <= i && j < n2 {
        assert all[i] == c2[i - n1] && all[j] == c2[j - n1];
      } else {
        var di := if i < n1 then DisplayBracket else InlineParen;
        var dj := if j < n2 then InlineParen else InlineDollar;
        assert all[i] == (if i < n1 then c1[i] else c2[i - n1]);
        assert all[j] == (if j < n2 then c2[j - n1] else c3[j - n2]);
        assert FoundBy(s, di, all[i]) && FoundBy(s, dj, all[j]);
        FoundApart(s, di, dj, all[i], all[j]);
      }
    }
  }
}
