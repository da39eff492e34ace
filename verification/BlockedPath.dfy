/** rpsiod_blocked_direct_access: a substring search that skips a whole pattern after each failed match. */
module BlockedPath {
  import opened Bytes

  /** The pattern stands at `i` between the ends of the path and slashes. */
  ghost predicate SegmentAt(path: seq<byte>, pat: seq<byte>, i: int) {
    && OccursAt(path, pat, i)
    && (i == 0 || path[i - 1] == SLASH)
    && (i + |pat| == |path| || path[i + |pat|] == SLASH)
  }

  /** A match in the rest of the path is a match in the path. */
  lemma OccursShift(path: seq<byte>, pat: seq<byte>, p: nat, k: nat)
    requires p <= |path|
    ensures OccursAt(path[p..], pat, k) <==> OccursAt(path, pat, p + k)
  {
    if p + k + |pat| <= |path| {
      assert path[p..][k..k + |pat|] == path[p + k..p + k + |pat|];
    }
  }

  /** What the search that starts at `p` answers; with an empty pattern it can only find what stands at `p`. */
  ghost function Search(path: seq<byte>, pat: seq<byte>, p: nat): bool
    requires p <= |path|
    decreases |path| - p
  {
    match Find(path[p..], pat)
    case None => false
    case Some(k) => SegmentAt(path, pat, p + k) || (pat != [] && Search(path, pat, p + k + |pat|))
  }

  /** A match found: the search ends there or goes on behind it. */
  lemma SearchAt(path: seq<byte>, pat: seq<byte>, p: nat, k: nat)
    requires p <= |path| && Find(path[p..], pat) == Some(k)
    ensures p + k + |pat| <= |path| && OccursAt(path, pat, p + k)
    ensures var i := p + k;
            Search(path, pat, p) <==>
            ((i == 0 || path[i - 1] == SLASH) && (i + |pat| == |path| || path[i + |pat|] == SLASH)) ||
            (pat != [] && Search(path, pat, i + |pat|))
  {
    OccursShift(path, pat, p, k);
  }

  lemma SearchEnds(path: seq<byte>, pat: seq<byte>, p: nat)
    requires p <= |path| && Find(path[p..], pat) == None
    ensures !Search(path, pat, p)
  {
  }

  /** As every path is that the server asks about. */
  predicate SlashLed(path: seq<byte>) {
    path != [] && path[0] == SLASH
  }

  /** The loop ends: the pattern is not empty, or it stands at the very start, as it does when a slash leads the path. */
  predicate Terminates(path: seq<byte>, pat: seq<byte>) {
    pat != [] || path == [] || SlashLed(path)
  }

  /** Of no path that the server asks about: the first match does not stand, and the cursor would stay where it is. */
  lemma StaysForEver(path: seq<byte>, pat: seq<byte>)
    requires !Terminates(path, pat)
    ensures !SlashLed(path) && Find(path[0..], pat) == Some(0) && !SegmentAt(path, pat, 0) && 0 + |pat| == 0
  {
    EmptyIsFirst(path);
  }

  lemma EmptyIsFirst(path: seq<byte>)
    ensures Find(path[0..], []) == Some(0)
  {
    assert path[0..][0..0] == [];
    FindIs(path[0..], [], 0);
  }

  /** One strstr and the two tests behind it. */
  method NextMatch(path: seq<byte>, pat: seq<byte>, p: nat) returns (next: Option<nat>, stands: bool)
    requires p <= |path|
    ensures next.None? ==> !stands && !Search(path, pat, p)
    ensures stands ==> Search(path, pat, p)
    ensures next.Some? ==> p + |pat| <= next.value <= |path|
    ensures next.Some? && !stands ==> Search(path, pat, p) == (pat != [] && Search(path, pat, next.value))
    ensures pat == [] && p == 0 && (path == [] || SlashLed(path)) ==> stands
  {
    var k := MemMem(path[p..], pat);
    if pat == [] && p == 0 {
      EmptyIsFirst(path);
    }
    if k.None? {
      SearchEnds(path, pat, p);
      return None, false;
    }
    var i := p + k.value;
    SearchAt(path, pat, p, k.value);
    var leftOk := i == 0 || path[i - 1] == SLASH;
    var rightOk := i + |pat| == |path| || path[i + |pat|] == SLASH;
    return Some(i + |pat|), leftOk && rightOk;
  }

  /** The inner loop, for one pattern. */
  method BlocksPath(path: seq<byte>, pat: seq<byte>) returns (blocked: bool)
    requires Terminates(path, pat)
    ensures blocked == Search(path, pat, 0)
  {
    var p := 0;
    while true
      invariant p <= |path| && Search(path, pat, 0) == Search(path, pat, p) && (pat == [] ==> p == 0)
      decreases |path| - p
    {
      var next, stands := NextMatch(path, pat, p);
      if next.None? {
        return false;
      }
      if stands {
        return true;
      }
      p := next.value;
    }
  }

  /** The outer loop, over all patterns of a site. */
  method BlockedDirectAccess(path: seq<byte>, patterns: seq<seq<byte>>) returns (blocked: bool)
    requires forall i :: 0 <= i < |patterns| ==> Terminates(path, patterns[i])
    ensures blocked <==> exists i :: 0 <= i < |patterns| && Search(path, patterns[i], 0)
  {
    for i := 0 to |patterns|
      invariant forall j :: 0 <= j < i ==> !Search(path, patterns[j], 0)
    {
      blocked := BlocksPath(path, patterns[i]);
      if blocked {
        return true;
      }
    }
    return false;
  }

  // ---------------------------------------------------------------- when skipping is harmless

  /** A proper border of the pattern of length `n` that a slash precedes. */
  ghost predicate SlashBorder(pat: seq<byte>, n: int) {
    0 < n < |pat| && pat[..n] == pat[|pat| - n..] && pat[|pat| - n - 1] == SLASH
  }

  /** The search answers true only for a real match. */
  lemma {:induction false} SearchSound(path: seq<byte>, pat: seq<byte>, p: nat)
    requires p <= |path| && pat != [] && Search(path, pat, p)
    ensures exists i :: SegmentAt(path, pat, i)
    decreases |path| - p
  {
    var i := p + Find(path[p..], pat).value;
    if !SegmentAt(path, pat, i) {
      SearchSound(path, pat, i + |pat|);
    }
  }

  /** Without such a border, no match that counts is skipped. */
  lemma {:induction false} SearchComplete(path: seq<byte>, pat: seq<byte>, p: nat, j: nat)
    requires p <= j && pat != [] && SegmentAt(path, pat, j) && forall n :: !SlashBorder(pat, n)
    ensures Search(path, pat, p)
    decreases |path| - p
  {
    var i := SearchStep(path, pat, p, j);
    if !SegmentAt(path, pat, i) {
      MatchesApart(path, pat, i, j);
      SearchComplete(path, pat, i + |pat|, j);
    }
  }

  /** The first match from `p` on, and what the search makes of it. */
  lemma SearchStep(path: seq<byte>, pat: seq<byte>, p: nat, j: nat) returns (i: nat)
    requires p <= j && pat != [] && OccursAt(path, pat, j)
    ensures p <= i <= j && OccursAt(path, pat, i)
    ensures Search(path, pat, p) <==> SegmentAt(path, pat, i) || Search(path, pat, i + |pat|)
  {
    OccursShift(path, pat, p, j - p);
    var k: nat := Find(path[p..], pat).value;
    OccursShift(path, pat, p, k);
    i := p + k;
  }

  lemma MatchesApart(path: seq<byte>, pat: seq<byte>, i: nat, j: nat)
    requires i < j && OccursAt(path, pat, i) && OccursAt(path, pat, j) && path[j - 1] == SLASH
    requires forall n :: !SlashBorder(pat, n)
    ensures i + |pat| <= j
  {
    if j < i + |pat| {
      Overlap(path, pat, i, j);
    }
  }

  /** Two overlapping matches, the second of them behind a slash, make a border behind a slash. */
  lemma Overlap(path: seq<byte>, pat: seq<byte>, i: nat, j: nat)
    requires i < j < i + |pat| && OccursAt(path, pat, i) && OccursAt(path, pat, j) && path[j - 1] == SLASH
    ensures SlashBorder(pat, i + |pat| - j)
  {
    var n := i + |pat| - j;
    assert pat[..n] == path[j..j + |pat|][..n] == path[j..i + |pat|];
    assert pat[|pat| - n..] == path[i..i + |pat|][j - i..] == path[j..i + |pat|];
    assert pat[|pat| - n - 1] == path[i..i + |pat|][j - 1 - i];
  }

  /** With such a border there is a path, with a slash in front as all paths have, whose only fitting match is skipped. */
  lemma SkippedMatch(pat: seq<byte>, n: nat) returns (path: seq<byte>)
    requires SlashBorder(pat, n)
    ensures SlashLed(path) && !Search(path, pat, 0) && exists i :: SegmentAt(path, pat, i)
  {
    var x: byte := if pat[..2] == [SLASH, 120] then 121 else 120;
    path := [SLASH, x] + pat + pat[n..];
    FirstMatch(pat, x, path, n);
    SecondMatch(pat, x, path, n);
  }

  /** The first match does not count, and too little stands behind it for another. */
  lemma FirstMatch(pat: seq<byte>, x: byte, path: seq<byte>, n: nat)
    requires SlashBorder(pat, n) && path == [SLASH, x] + pat + pat[n..] && x != SLASH && pat[..2] != [SLASH, x]
    ensures !Search(path, pat, 0)
  {
    assert path[2..2 + |pat|] == pat;
    NotBefore(pat, x, path, n);
    assert path[0..] == path;
    FindIs(path[0..], pat, 2);
    SearchAt(path, pat, 0, 2);
    assert |path[2 + |pat|..]| < |pat|;
    SearchEnds(path, pat, 2 + |pat|);
  }

  lemma NotBefore(pat: seq<byte>, x: byte, path: seq<byte>, n: nat)
    requires SlashBorder(pat, n) && path == [SLASH, x] + pat + pat[n..] && x != SLASH && pat[..2] != [SLASH, x]
    ensures !OccursAt(path, pat, 0) && !OccursAt(path, pat, 1)
  {
    assert path[0..|pat|][0] == SLASH && path[0..|pat|][1] == x && pat[..2] == [pat[0], pat[1]];
    if path[1..1 + |pat|] == pat {
      assert ([x] + pat)[..|pat|] == path[1..1 + |pat|];
      AllSame(pat, x, |pat|);
    }
  }

  lemma SecondMatch(pat: seq<byte>, x: byte, path: seq<byte>, n: nat)
    requires SlashBorder(pat, n) && path == [SLASH, x] + pat + pat[n..]
    ensures SegmentAt(path, pat, 2 + |pat| - n)
  {
    var j := 2 + |pat| - n;
    assert path[j..2 + |pat|] == pat[|pat| - n..] == pat[..n];
    assert path[j..j + |pat|] == path[j..2 + |pat|] + path[2 + |pat|..] == pat[..n] + pat[n..] == pat;
    assert path[j - 1] == pat[|pat| - n - 1];
  }

  /** A pattern that is its own left shift behind `x` is all `x`. */
  lemma {:induction false} AllSame(pat: seq<byte>, x: byte, n: nat)
    requires n <= |pat| && ([x] + pat)[..|pat|] == pat
    ensures forall k :: 0 <= k < n ==> pat[k] == x
  {
    if n > 0 {
      AllSame(pat, x, n - 1);
      assert pat[n - 1] == ([x] + pat)[n - 1];
    }
  }

  /** Without such a border the search decides, for every path, whether some match stands between slashes or ends. */
  lemma SearchIsExact(path: seq<byte>, pat: seq<byte>)
    requires pat != [] && forall n :: !SlashBorder(pat, n)
    ensures Search(path, pat, 0) <==> exists i :: SegmentAt(path, pat, i)
  {
    if Search(path, pat, 0) {
      SearchSound(path, pat, 0);
    }
    if i: nat :| SegmentAt(path, pat, i) {
      SearchComplete(path, pat, 0, i);
    }
  }

  /**
   The exact condition: the search decides that for every path with a slash in front, which is every path it is asked
   about, if and only if no proper border of the pattern follows a slash.
   */
  lemma SearchIsExactIff(pat: seq<byte>)
    requires pat != []
    ensures (forall path | SlashLed(path) :: Search(path, pat, 0) <==> exists i :: SegmentAt(path, pat, i)) <==>
            forall n :: !SlashBorder(pat, n)
  {
    if forall n :: !SlashBorder(pat, n) {
      forall path | SlashLed(path)
        ensures Search(path, pat, 0) <==> exists i :: SegmentAt(path, pat, i)
      {
        SearchIsExact(path, pat);
      }
    } else {
      var n: nat :| SlashBorder(pat, n);
      var path := SkippedMatch(pat, n);
    }
  }

  // ---------------------------------------------------------------- segments

  /** The '/'-separated segments of a path, in order. */
  function Segments(path: seq<byte>): seq<seq<byte>>
    decreases |path|
  {
    var s := FindByte(path, SLASH);
    if s.None? then [path] else [path[..s.value]] + Segments(path[s.value + 1..])
  }

  /** Behind the first slash the path goes on as a path of its own. */
  lemma SegmentShift(path: seq<byte>, pat: seq<byte>, end: nat, i: nat)
    requires end < |path| && path[end] == SLASH
    ensures SegmentAt(path[end + 1..], pat, i) <==> SegmentAt(path, pat, end + 1 + i)
  {
    OccursShift(path, pat, end + 1, i);
  }

  /** A pattern without slashes that stands between slashes is a segment. */
  lemma {:induction false} StandsThenSegment(path: seq<byte>, pat: seq<byte>, i: nat)
    requires SLASH !in pat && SegmentAt(path, pat, i)
    ensures pat in Segments(path)
    decreases |path|
  {
    var s := FindByte(path, SLASH);
    if i == 0 {
      FirstSegment(path, pat, if s.Some? then s.value else |path|);
      assert path[..|path|] == path;
      assert Segments(path)[0] == pat;
    } else {
      SegmentShift(path, pat, s.value, i - s.value - 1);
      StandsThenSegment(path[s.value + 1..], pat, i - s.value - 1);
    }
  }

  /** And a segment stands between slashes. */
  lemma {:induction false} SegmentThenStands(path: seq<byte>, pat: seq<byte>) returns (i: nat)
    requires pat in Segments(path)
    ensures SegmentAt(path, pat, i)
    decreases |path|
  {
    var s := FindByte(path, SLASH);
    LaterSegment(path, pat);
    i := 0;
    if s.None? {
      FirstStands(path, |path|);
    } else if pat == path[..s.value] {
      FirstStands(path, s.value);
    } else {
      var k := SegmentThenStands(path[s.value + 1..], pat);
      SegmentShift(path, pat, s.value, k);
      i := s.value + 1 + k;
    }
  }

  lemma LaterSegment(path: seq<byte>, pat: seq<byte>)
    requires pat in Segments(path)
    ensures var s := FindByte(path, SLASH);
            if s.None? then pat == path[..|path|] else pat == path[..s.value] || pat in Segments(path[s.value + 1..])
  {
    assert path[..|path|] == path;
  }

  lemma FirstStands(path: seq<byte>, end: nat)
    requires end <= |path| && (end < |path| ==> path[end] == SLASH)
    ensures SegmentAt(path, path[..end], 0)
  {
    assert path[0..end] == path[..end];
  }

  lemma FirstSegment(path: seq<byte>, pat: seq<byte>, end: nat)
    requires SLASH !in pat && SegmentAt(path, pat, 0) && end <= |path|
    requires (forall k :: 0 <= k < end ==> path[k] != SLASH) && (end == |path| || path[end] == SLASH)
    ensures pat == path[..end]
  {
    assert path[0..|pat|] == pat;
    assert end < |path| ==> path[end] == SLASH;
    assert forall k :: 0 <= k < |pat| ==> path[k] == pat[k] && pat[k] != SLASH;
  }

  /** For a pattern without slashes the search answers whether some segment of the path is the pattern. */
  lemma SlashFreeSearch(path: seq<byte>, pat: seq<byte>)
    requires pat != [] && SLASH !in pat
    ensures Search(path, pat, 0) <==> pat in Segments(path)
  {
    assert forall n :: !SlashBorder(pat, n);
    SearchIsExact(path, pat);
    if i: nat :| SegmentAt(path, pat, i) {
      StandsThenSegment(path, pat, i);
    }
    if pat in Segments(path) {
      var i := SegmentThenStands(path, pat);
    }
  }
}
