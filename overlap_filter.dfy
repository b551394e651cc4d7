/**
 * Ordering and overlap removal of the match records (lib/content-parser.ts:83-97 and
 * lib/math.ts:58-72): a stable sort by start offset, then a greedy pass that keeps a record
 * only when it does not touch a record kept before it.
 */
module OverlapFilter {
  import opened MathPatterns

  // ---------------------------------------------------------------------------
  // `Array.prototype.sort` with the comparator `(a, b) => a.start - b.start`.
  // The sort is stable (required of it since ECMAScript 2019); it is written here as an
  // insertion sort, which is one stable sort, and its defining properties are proved below.
  // ---------------------------------------------------------------------------

  /** `x` placed before the first element of `ys` whose start is not smaller. */
  function Insert(x: MathMatch, ys: seq<MathMatch>): seq<MathMatch> {
    if ys == [] || x.start <= ys[0].start then [x] + ys else [ys[0]] + Insert(x, ys[1..])
  }

  function SortByStart(xs: seq<MathMatch>): seq<MathMatch> {
    if xs == [] then [] else Insert(xs[0], SortByStart(xs[1..]))
  }

  predicate SortedByStart(xs: seq<MathMatch>) {
    forall i, j :: 0 <= i < j < |xs| ==> xs[i].start <= xs[j].start
  }

  /** The records of `xs` that start at offset `k`, in their order in `xs`. */
  function WithStart(xs: seq<MathMatch>, k: nat): seq<MathMatch> {
    if xs == [] then [] else (if xs[0].start == k then [xs[0]] else []) + WithStart(xs[1..], k)
  }

  /** A record no later than every element of a sorted list can go in front of it. */
  lemma SortedCons(h: MathMatch, r: seq<MathMatch>)
    requires SortedByStart(r)
    requires forall k :: 0 <= k < |r| ==> h.start <= r[k].start
    ensures SortedByStart([h] + r)
  {
    var t := [h] + r;
    forall i, j | 0 <= i < j < |t|
      ensures t[i].start <= t[j].start
    {
      assert t[j] == r[j - 1];
      if i > 0 {
        assert t[i] == r[i - 1];
      }
    }
  }

  /** Inserting adds exactly one occurrence of the record. */
  lemma {:induction false} InsertPermutes(x: MathMatch, ys: seq<MathMatch>)
    ensures multiset(Insert(x, ys)) == multiset(ys) + multiset{x}
  {
    if ys != [] && x.start > ys[0].start {
      InsertPermutes(x, ys[1..]);
      assert ys == [ys[0]] + ys[1..];
    }
  }

  /** Inserting into a sorted list keeps it sorted. */
  lemma {:induction false} InsertSorted(x: MathMatch, ys: seq<MathMatch>)
    requires SortedByStart(ys)
    ensures SortedByStart(Insert(x, ys))
  {
    if ys == [] || x.start <= ys[0].start {
      SortedCons(x, ys);
    } else {
      var t := ys[1..];
      var r := Insert(x, t);
      assert SortedByStart(t) by {
        forall i, j | 0 <= i < j < |t|
          ensures t[i].start <= t[j].start
        {
          assert t[i] == ys[i + 1] && t[j] == ys[j + 1];
        }
      }
      InsertSorted(x, t);
      InsertPermutes(x, t);
      forall k | 0 <= k < |r|
        ensures ys[0].start <= r[k].start
      {
        var e := r[k];
        assert e in multiset(r);
        if e != x {
          assert e in multiset(t);
          var i :| 0 <= i < |t| && t[i] == e;
          assert t[i] == ys[i + 1];
        }
      }
      SortedCons(ys[0], r);
    }
  }

  /** Insertion keeps a sorted list sorted and adds exactly the inserted record. */
  lemma InsertSpec(x: MathMatch, ys: seq<MathMatch>)
    requires SortedByStart(ys)
    ensures SortedByStart(Insert(x, ys))
    ensures multiset(Insert(x, ys)) == multiset(ys) + multiset{x}
  {
    InsertSorted(x, ys);
    InsertPermutes(x, ys);
  }

  lemma {:induction false} InsertWithStart(x: MathMatch, ys: seq<MathMatch>, k: nat)
    ensures WithStart(Insert(x, ys), k) == WithStart([x] + ys, k)
  {
    if ys != [] && x.start > ys[0].start {
      InsertWithStart(x, ys[1..], k);
      assert ([ys[0]] + Insert(x, ys[1..]))[1..] == Insert(x, ys[1..]);
      assert ([x] + ys)[1..] == ys;
      assert ([x] + ys[1..])[1..] == ys[1..];
    }
  }

  /** The sort orders by start and is a permutation of its input. */
  lemma {:induction false} SortByStartSpec(xs: seq<MathMatch>)
    ensures SortedByStart(SortByStart(xs))
    ensures multiset(SortByStart(xs)) == multiset(xs)
  {
    if xs != [] {
      SortByStartSpec(xs[1..]);
      InsertSpec(xs[0], SortByStart(xs[1..]));
      assert xs == [xs[0]] + xs[1..];
    }
  }

  /** The sort is stable: records with equal starts keep their relative order. */
  lemma {:induction false} SortByStartStable(xs: seq<MathMatch>, k: nat)
    ensures WithStart(SortByStart(xs), k) == WithStart(xs, k)
  {
    if xs != [] {
      SortByStartStable(xs[1..], k);
      InsertWithStart(xs[0], SortByStart(xs[1..]), k);
      assert ([xs[0]] + SortByStart(xs[1..]))[1..] == SortByStart(xs[1..]);
    }
  }

  // ---------------------------------------------------------------------------
  // The overlap filter.
  // ---------------------------------------------------------------------------

  /** The test the source applies to a candidate and one kept record: an endpoint of the candidate falls inside it. */
  predicate EndpointHit(current: MathMatch, existing: MathMatch) {
    || (current.start >= existing.start && current.start < existing.end)
    || (current.end > existing.start && current.end <= existing.end)
  }

  /** `filteredMathMatches.some(existing => ...)`. */
  predicate Overlaps(current: MathMatch, accepted: seq<MathMatch>) {
    exists e :: e in accepted && EndpointHit(current, e)
  }

  /** The records kept after the filter has seen all of `xs`, in order. */
  function GreedyFilter(xs: seq<MathMatch>): seq<MathMatch>
    decreases |xs|
  {
    if xs == [] then []
    else
      var kept := GreedyFilter(xs[..|xs| - 1]);
      var current := xs[|xs| - 1];
      if Overlaps(current, kept) then kept else kept + [current]
  }

  /** The filtering loop (lib/content-parser.ts:87-97). */
  method RemoveOverlaps(all: seq<MathMatch>) returns (filtered: seq<MathMatch>)
    ensures filtered == GreedyFilter(all)
  {
    filtered := [];
    for i := 0 to |all|
      invariant filtered == GreedyFilter(all[..i])
    {
      var current := all[i];
      var isOverlapping := Overlaps(current, filtered);
      if !isOverlapping {
        filtered := filtered + [current];
      }
      assert all[..i + 1][..i] == all[..i];
    }
    assert all[..|all|] == all;
  }

  /** Half-open intervals `[start, end)` that share a position. */
  predicate Intersect(a: MathMatch, b: MathMatch) {
    a.start < b.end && b.start < a.end
  }

  /** Every record spans at least one character. */
  predicate Proper(xs: seq<MathMatch>) {
    forall k :: 0 <= k < |xs| ==> xs[k].start < xs[k].end
  }

  /** The records are pairwise disjoint and in ascending order. */
  predicate Disjoint(xs: seq<MathMatch>) {
    forall i, j :: 0 <= i < j < |xs| ==> xs[i].end <= xs[j].start
  }

  /**
   * When every kept record starts no later than the candidate (which the sort guarantees),
   * the endpoint test is the same as interval intersection.
   */
  lemma EndpointTestIsIntersection(current: MathMatch, accepted: seq<MathMatch>)
    requires current.start < current.end
    requires forall e :: e in accepted ==> e.start <= current.start
    ensures Overlaps(current, accepted) <==> exists e :: e in accepted && Intersect(current, e)
  {
    if exists e :: e in accepted && Intersect(current, e) {
      var e :| e in accepted && Intersect(current, e);
      assert EndpointHit(current, e);
    }
  }

  /** The filter keeps only candidates. */
  lemma {:induction false} GreedyFilterKeepsCandidates(xs: seq<MathMatch>)
    ensures forall e :: e in GreedyFilter(xs) ==> e in xs
  {
    if xs != [] {
      var p := xs[..|xs| - 1];
      GreedyFilterKeepsCandidates(p);
      assert forall e :: e in p ==> e in xs;
    }
  }

  /** A record kept at some point stays kept. */
  lemma {:induction false} GreedyFilterGrows(xs: seq<MathMatch>, i: nat, j: nat)
    requires i <= j <= |xs|
    decreases j - i
    ensures forall e :: e in GreedyFilter(xs[..i]) ==> e in GreedyFilter(xs[..j])
  {
    if i < j {
      GreedyFilterGrows(xs, i + 1, j);
      assert xs[..i + 1][..i] == xs[..i];
    }
  }

  /** Over a sorted list of proper records the kept records are pairwise disjoint and ascending. */
  lemma {:induction false} GreedyFilterDisjoint(xs: seq<MathMatch>)
    requires SortedByStart(xs) && Proper(xs)
    ensures Disjoint(GreedyFilter(xs))
  {
    if xs != [] {
      var p := xs[..|xs| - 1];
      var c := xs[|xs| - 1];
      var kept := GreedyFilter(p);
      GreedyFilterDisjoint(p);
      GreedyFilterKeepsCandidates(p);
      if !Overlaps(c, kept) {
        forall e | e in kept
          ensures e.end <= c.start
        {
          var k :| 0 <= k < |p| && p[k] == e;
          assert e.start <= c.start;
          assert !EndpointHit(c, e);
        }
        var r := kept + [c];
        forall i, j | 0 <= i < j < |r|
          ensures r[i].end <= r[j].start
        {
          if j == |kept| {
            assert r[i] in kept;
          }
        }
      }
    }
  }

  /** Every record kept from a prefix of a sorted list starts no later than the next candidate. */
  lemma KeptStartNoLater(xs: seq<MathMatch>, n: nat)
    requires SortedByStart(xs) && n < |xs|
    ensures forall e :: e in GreedyFilter(xs[..n]) ==> e.start <= xs[n].start
  {
    GreedyFilterKeepsCandidates(xs[..n]);
    forall e | e in GreedyFilter(xs[..n])
      ensures e.start <= xs[n].start
    {
      var k :| 0 <= k < n && xs[..n][k] == e;
      assert xs[k] == e;
    }
  }

  /** The last candidate is kept, or it intersects a record kept before it. */
  lemma LastDroppedOnlyOverlapping(xs: seq<MathMatch>)
    requires SortedByStart(xs) && Proper(xs) && xs != []
    ensures var c := xs[|xs| - 1];
      c in GreedyFilter(xs) || exists e :: e in GreedyFilter(xs) && Intersect(c, e)
  {
    var n := |xs| - 1;
    var c := xs[n];
    var kept := GreedyFilter(xs[..n]);
    if Overlaps(c, kept) {
      KeptStartNoLater(xs, n);
      EndpointTestIsIntersection(c, kept);
      assert GreedyFilter(xs) == kept;
    } else {
      assert GreedyFilter(xs) == kept + [c];
    }
  }

  /** Coverage by kept records survives adding more kept records. */
  lemma CoverageGrows(cs: seq<MathMatch>, K1: seq<MathMatch>, K2: seq<MathMatch>)
    requires forall e :: e in K1 ==> e in K2
    requires forall c :: c in cs ==> c in K1 || exists e :: e in K1 && Intersect(c, e)
    ensures forall c :: c in cs ==> c in K2 || exists e :: e in K2 && Intersect(c, e)
  {
    forall c | c in cs && c !in K1
      ensures exists e :: e in K2 && Intersect(c, e)
    {
      var e :| e in K1 && Intersect(c, e);
      assert e in K2;
    }
  }

  /** A dropped candidate intersects some kept record (the filter drops nothing needlessly). */
  lemma {:induction false} GreedyFilterDropsOnlyOverlapping(xs: seq<MathMatch>)
    requires SortedByStart(xs) && Proper(xs)
    ensures forall c :: c in xs ==> c in GreedyFilter(xs) || exists e :: e in GreedyFilter(xs) && Intersect(c, e)
  {
    if xs != [] {
      var n := |xs| - 1;
      var p := xs[..n];
      assert SortedByStart(p) && Proper(p);
      GreedyFilterDropsOnlyOverlapping(p);
      GreedyFilterGrows(xs, n, n + 1);
      assert xs[..n + 1] == xs;
      CoverageGrows(p, GreedyFilter(p), GreedyFilter(xs));
      LastDroppedOnlyOverlapping(xs);
      assert xs == p + [xs[n]];
    }
  }

  /**
   * Of two candidates with the same start, the later one in the list is always dropped: either
   * the earlier one was kept and covers it, or the record that made the earlier one drop covers
   * it too. With the stable sort, "earlier in the list" is "earlier in scan order".
   */
  lemma LaterSameStartDropped(xs: seq<MathMatch>, i: nat, j: nat)
    requires SortedByStart(xs) && Proper(xs)
    requires i < j < |xs| && xs[i].start == xs[j].start
    ensures Overlaps(xs[j], GreedyFilter(xs[..j]))
    ensures GreedyFilter(xs[..j + 1]) == GreedyFilter(xs[..j])
  {
    var p, c := xs[i], xs[j];
    assert p.start < p.end;
    var hit := SameStartCovered(xs, i);
    GreedyFilterGrows(xs, i + 1, j);
    assert hit in GreedyFilter(xs[..j]);
    assert EndpointHit(c, hit);
    assert xs[..j + 1][..j] == xs[..j];
  }

  /** The record that keeps or drops candidate `i` is kept once `i` has been seen, and covers its start. */
  lemma SameStartCovered(xs: seq<MathMatch>, i: nat) returns (hit: MathMatch)
    requires SortedByStart(xs) && Proper(xs) && i < |xs|
    ensures hit in GreedyFilter(xs[..i + 1])
    ensures hit.start <= xs[i].start < hit.end
  {
    var p := xs[i];
    assert p.start < p.end;
    assert xs[..i + 1][..i] == xs[..i];
    var kept := GreedyFilter(xs[..i]);
    GreedyFilterGrows(xs, i, i + 1);
    if !Overlaps(p, kept) {
      assert GreedyFilter(xs[..i + 1]) == kept + [p];
      hit := p;
    } else {
      hit :| hit in kept && EndpointHit(p, hit);
      KeptStartNoLater(xs, i);
    }
  }
}
