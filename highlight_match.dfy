/**
 * The match rule of the `??text??` highlight syntax: the global regular
 * expression /\?\?([^?]+)\?\?/g scanned over a text node's value, as
 * `text.matchAll` does.
 *
 * Because the capture `[^?]+` cannot contain `?`, a match starting at `i`
 * is determined without backtracking: two `?`, the maximal non-empty run of
 * non-`?` characters after them, then two more `?`.
 */
module HighlightMatch {
  import opened Wrappers

  /** One regex match: the half-open range [start, end) of the text. */
  datatype Match = Match(start: nat, end: nat)

  /** Reference definition: s[i..e] is `??` + inner + `??` with a non-empty,
      `?`-free inner part. */
  predicate IsMatch(s: string, i: int, e: int) {
    && 0 <= i && i + 5 <= e <= |s|
    && s[i] == '?' && s[i + 1] == '?'
    && s[e - 2] == '?' && s[e - 1] == '?'
    && forall k :: i + 2 <= k < e - 2 ==> s[k] != '?'
  }

  /** The captured group (`match[1]`) of a match. */
  function Capture(s: string, m: Match): (r: string)
    requires IsMatch(s, m.start, m.end)
    ensures |r| > 0 && forall k :: 0 <= k < |r| ==> r[k] != '?'
    ensures s[m.start..m.end] == "??" + r + "??"
  {
    var r := s[m.start + 2..m.end - 2];
    assert s[m.start..m.end] == s[m.start..m.start + 2] + r + s[m.end - 2..m.end];
    r
  }

  /** The regex admits at most one match at each start position. */
  lemma MatchUnique(s: string, i: int, e1: int, e2: int)
    requires IsMatch(s, i, e1) && IsMatch(s, i, e2)
    ensures e1 == e2
  {
  }

  /** End of the run of non-`?` characters that begins at k. */
  function RunEnd(s: string, k: nat): (r: nat)
    requires k <= |s|
    ensures k <= r <= |s|
    ensures forall m :: k <= m < r ==> s[m] != '?'
    ensures r < |s| ==> s[r] == '?'
    decreases |s| - k
  {
    if k == |s| || s[k] == '?' then k else RunEnd(s, k + 1)
  }

  /** The end of the match that starts at i, if the regex matches there. */
  function MatchAt(s: string, i: nat): (r: Option<nat>)
    requires i <= |s|
    ensures r.Some? ==> IsMatch(s, i, r.value)
    ensures r.None? ==> forall e :: !IsMatch(s, i, e)
  {
    if i + 1 < |s| && s[i] == '?' && s[i + 1] == '?' then
      var j := RunEnd(s, i + 2);
      if j > i + 2 && j + 1 < |s| && s[j + 1] == '?' then
        Some(j + 2)
      else
        None
    else
      None
  }

  /** The matches a global scan finds from position `from` on: the scan tries
      each position in turn and resumes after the end of each match. */
  function MatchesFrom(s: string, from: nat): (r: seq<Match>)
    requires from <= |s|
    ensures Chain(s, r, from)
    decreases |s| - from
  {
    if from == |s| then []
    else
      match MatchAt(s, from)
      case Some(e) => [Match(from, e)] + MatchesFrom(s, e)
      case None => MatchesFrom(s, from + 1)
  }

  /** `[...text.matchAll(/\?\?([^?]+)\?\?/g)]`. */
  function AllMatches(s: string): (r: seq<Match>)
    ensures Chain(s, r, 0)
  {
    MatchesFrom(s, 0)
  }

  /** Matches that are real, in order and non-overlapping, all at or after `from`. */
  predicate Chain(s: string, ms: seq<Match>, from: int)
    decreases |ms|
  {
    && 0 <= from <= |s|
    && (ms != [] ==>
          && from <= ms[0].start
          && IsMatch(s, ms[0].start, ms[0].end)
          && Chain(s, ms[1..], ms[0].end))
  }

  /** Position i lies inside one of the matches. */
  ghost predicate Covered(ms: seq<Match>, i: int) {
    exists k :: 0 <= k < |ms| && ms[k].start <= i < ms[k].end
  }

  /** Reference definition of a leftmost, non-overlapping scan from `from`:
      the matches form a chain and every position where the regex could
      start a match lies inside one of them. */
  ghost predicate IsScan(s: string, ms: seq<Match>, from: int) {
    && Chain(s, ms, from)
    && forall i, e :: from <= i && IsMatch(s, i, e) ==> Covered(ms, i)
  }

  lemma {:induction false} ChainStartsAfter(s: string, ms: seq<Match>, from: int, k: int)
    requires Chain(s, ms, from) && 0 <= k < |ms|
    ensures from <= ms[k].start && IsMatch(s, ms[k].start, ms[k].end)
    decreases |ms|
  {
    if k > 0 {
      ChainStartsAfter(s, ms[1..], ms[0].end, k - 1);
    }
  }

  /** The tail of a scan is the scan that resumes after the first match. */
  lemma ScanTail(s: string, ms: seq<Match>, from: int)
    requires IsScan(s, ms, from) && ms != []
    ensures IsScan(s, ms[1..], ms[0].end)
  {
    var tail := ms[1..];
    forall i, e | ms[0].end <= i && IsMatch(s, i, e) ensures Covered(tail, i) {
      assert Covered(ms, i);
      var k :| 0 <= k < |ms| && ms[k].start <= i < ms[k].end;
      assert k != 0;
      assert tail[k - 1] == ms[k];
    }
  }

  /** The global scan from `from` is the leftmost non-overlapping scan. */
  lemma {:induction false} MatchesFromIsScan(s: string, from: nat)
    requires from <= |s|
    ensures IsScan(s, MatchesFrom(s, from), from)
    decreases |s| - from
  {
    var ms := MatchesFrom(s, from);
    if from == |s| {
      forall i, e | from <= i && IsMatch(s, i, e) ensures false { }
    } else {
      match MatchAt(s, from)
      case Some(e0) =>
        MatchesFromIsScan(s, e0);
        var tail := MatchesFrom(s, e0);
        assert ms == [Match(from, e0)] + tail;
        assert ms[1..] == tail;
        forall i, e | from <= i && IsMatch(s, i, e) ensures Covered(ms, i) {
          if i < e0 {
            assert ms[0].start <= i < ms[0].end;
          } else {
            assert Covered(tail, i);
            var k :| 0 <= k < |tail| && tail[k].start <= i < tail[k].end;
            assert ms[k + 1] == tail[k];
          }
        }
      case None =>
        MatchesFromIsScan(s, from + 1);
    }
  }

  /** The leftmost non-overlapping scan from a position is unique. */
  lemma {:induction false} ScanUnique(s: string, ms1: seq<Match>, ms2: seq<Match>, from: int)
    requires IsScan(s, ms1, from) && IsScan(s, ms2, from)
    ensures ms1 == ms2
    decreases |ms1|
  {
    if ms1 != [] && ms2 != [] {
      var a, b := ms1[0], ms2[0];
      FirstIsLeftmost(s, ms2, from, a.start, a.end);
      FirstIsLeftmost(s, ms1, from, b.start, b.end);
      MatchUnique(s, a.start, a.end, b.end);
      ScanTail(s, ms1, from);
      ScanTail(s, ms2, from);
      ScanUnique(s, ms1[1..], ms2[1..], a.end);
      assert ms1 == [a] + ms1[1..];
      assert ms2 == [b] + ms2[1..];
    } else if ms1 != [] {
      ChainStartsAfter(s, ms1, from, 0);
      EmptyScan(s, ms2, from);
    } else if ms2 != [] {
      ChainStartsAfter(s, ms2, from, 0);
      EmptyScan(s, ms1, from);
    }
  }

  /** The first match of a scan is the leftmost position where a match starts. */
  lemma FirstIsLeftmost(s: string, ms: seq<Match>, from: int, i: int, e: int)
    requires IsScan(s, ms, from) && ms != []
    requires from <= i && IsMatch(s, i, e)
    ensures ms[0].start <= i
  {
    assert Covered(ms, i);
    var k :| 0 <= k < |ms| && ms[k].start <= i < ms[k].end;
    if k > 0 {
      ChainStartsAfter(s, ms[1..], ms[0].end, k - 1);
      assert ms[1..][k - 1] == ms[k];
    }
  }

  /** An empty scan means no match starts at or after `from`. */
  lemma EmptyScan(s: string, ms: seq<Match>, from: int)
    requires IsScan(s, ms, from) && ms == []
    ensures forall i, e :: from <= i ==> !IsMatch(s, i, e)
  {
  }

  /** `AllMatches` is the one sequence of leftmost non-overlapping matches. */
  lemma AllMatchesSpec(s: string, ms: seq<Match>)
    ensures IsScan(s, AllMatches(s), 0)
    ensures IsScan(s, ms, 0) <==> ms == AllMatches(s)
  {
    MatchesFromIsScan(s, 0);
    if IsScan(s, ms, 0) {
      ScanUnique(s, ms, AllMatches(s), 0);
    }
  }

  /** Zero matches exactly when no position starts a match. */
  lemma NoMatchesIff(s: string)
    ensures AllMatches(s) == [] <==> forall i, e :: !IsMatch(s, i, e)
  {
    MatchesFromIsScan(s, 0);
    var ms := AllMatches(s);
    if ms != [] {
      ChainStartsAfter(s, ms, 0, 0);
    } else {
      EmptyScan(s, ms, 0);
    }
  }

  /** The matches are real, in order and do not overlap: each starts at or
      after the end of the one before, so `lastIndex` only moves forward. */
  lemma {:induction false} ChainOrdered(s: string, ms: seq<Match>, from: int, k: int)
    requires Chain(s, ms, from) && 0 <= k < |ms|
    ensures IsMatch(s, ms[k].start, ms[k].end) && from <= ms[k].start < ms[k].end
    ensures k + 1 < |ms| ==> ms[k].end <= ms[k + 1].start
    decreases |ms|
  {
    if k > 0 {
      ChainOrdered(s, ms[1..], ms[0].end, k - 1);
    } else if |ms| > 1 {
      ChainStartsAfter(s, ms[1..], ms[0].end, 0);
    }
  }

  lemma AllMatchesOrdered(s: string)
    ensures forall k :: 0 <= k < |AllMatches(s)| ==>
      IsMatch(s, AllMatches(s)[k].start, AllMatches(s)[k].end)
    ensures forall k :: 0 <= k < |AllMatches(s)| - 1 ==>
      AllMatches(s)[k].end <= AllMatches(s)[k + 1].start
  {
    var ms := AllMatches(s);
    forall k | 0 <= k < |ms| ensures IsMatch(s, ms[k].start, ms[k].end)
      && (k + 1 < |ms| ==> ms[k].end <= ms[k + 1].start)
    {
      ChainOrdered(s, ms, 0, k);
    }
  }

  /** A match inside a slice of s is a match of s at the shifted position. */
  lemma MatchInSlice(s: string, a: int, b: int, i: int, e: int)
    requires 0 <= a <= b <= |s| && IsMatch(s[a..b], i, e)
    ensures IsMatch(s, a + i, a + e)
  {
    var p := s[a..b];
    forall k | a + i + 2 <= k < a + e - 2 ensures s[k] != '?' {
      assert s[k] == p[k - a];
    }
  }

  /** `"??"`, `"????"` and a lone `"?"` hold no match. */
  lemma DelimiterOnlyTextHasNoMatch()
    ensures AllMatches("??") == []
    ensures AllMatches("????") == []
    ensures AllMatches("?") == []
  {
    NoMatchesIff("??");
    NoMatchesIff("????");
    NoMatchesIff("?");
  }
}
