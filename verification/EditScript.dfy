/** The recursive script builder of logger/diff.c and what its scripts mean. */
module EditScript {
  import opened Sequences
  import opened EditGrid
  import opened Frontier
  import opened Middle

  /** One call of a callback: del on element i of a, or add of element j of b. */
  datatype Edit = Del(i: int) | Add(j: int)

  // ----- Trimming

  /** Elements i of a and i - k of b compare equal. */
  predicate SameOn(same: (int, int) -> bool, i: int, k: int) {
    same(i, i - k)
  }

  /** All elements of a from lo up to hi equal their partners on diagonal k. */
  ghost predicate AllSame(same: (int, int) -> bool, k: int, lo: int, hi: int) {
    forall i :: lo <= i < hi ==> SameOn(same, i, k)
  }

  /** The box without the longest common prefix. */
  function TrimStart(g: Grid): (t: Grid)
    requires Valid(g)
    ensures Valid(t) && t == Sub(g, t.x1, t.y1, g.x2, g.y2) && Inside(g, t.x1, t.y1)
    ensures t.x1 - g.x1 == t.y1 - g.y1 && !Match(t, t.x1, t.y1)
    ensures AllSame(g.same, g.x1 - g.y1, g.x1, t.x1)
    decreases g.x2 - g.x1
  {
    if g.x1 < g.x2 && g.y1 < g.y2 && g.same(g.x1, g.y1) then
      TrimStart(Sub(g, g.x1 + 1, g.y1 + 1, g.x2, g.y2))
    else g
  }

  /** The box without the longest common suffix. */
  function TrimEnd(g: Grid): (t: Grid)
    requires Valid(g)
    ensures Valid(t) && t == Sub(g, g.x1, g.y1, t.x2, t.y2) && Inside(g, t.x2, t.y2)
    ensures g.x2 - t.x2 == g.y2 - t.y2 && !Match(t, t.x2 - 1, t.y2 - 1)
    ensures AllSame(g.same, g.x2 - g.y2, t.x2, g.x2)
    decreases g.x2 - g.x1
  {
    if g.x2 > g.x1 && g.y2 > g.y1 && g.same(g.x2 - 1, g.y2 - 1) then
      TrimEnd(Sub(g, g.x1, g.y1, g.x2 - 1, g.y2 - 1))
    else g
  }

  function Trim(g: Grid): (t: Grid)
    requires Valid(g)
  {
    TrimEnd(TrimStart(g))
  }

  lemma {:induction false} TrimStartKeepsDistance(g: Grid)
    requires Valid(g)
    ensures Distance(TrimStart(g)) == Distance(g)
    decreases g.x2 - g.x1
  {
    if g.x1 < g.x2 && g.y1 < g.y2 && g.same(g.x1, g.y1) {
      TrimStartKeepsDistance(Sub(g, g.x1 + 1, g.y1 + 1, g.x2, g.y2));
      CutStart(g, g.x1 + 1, g.y1 + 1);
      DistanceFromEitherSide(g);
    }
  }

  lemma {:induction false} TrimEndKeepsDistance(g: Grid)
    requires Valid(g)
    ensures Distance(TrimEnd(g)) == Distance(g)
    decreases g.x2 - g.x1
  {
    if g.x2 > g.x1 && g.y2 > g.y1 && g.same(g.x2 - 1, g.y2 - 1) {
      TrimEndKeepsDistance(Sub(g, g.x1, g.y1, g.x2 - 1, g.y2 - 1));
      CutEnd(g, g.x2 - 1, g.y2 - 1);
    }
  }

  /** t is g without some equal elements at both ends. */
  ghost predicate TrimmedTo(g: Grid, t: Grid) {
    && Valid(t) && t.same == g.same
    && Inside(g, t.x1, t.y1) && Inside(g, t.x2, t.y2)
    && t.x1 - g.x1 == t.y1 - g.y1 && g.x2 - t.x2 == g.y2 - t.y2
    && AllSame(g.same, g.x1 - g.y1, g.x1, t.x1) && AllSame(g.same, g.x2 - g.y2, t.x2, g.x2)
  }

  /** Trimming drops equal elements only, and leaves a box that starts and ends with an edit. */
  lemma TrimFacts(g: Grid)
    requires Valid(g)
    ensures var t := Trim(g);
            && TrimmedTo(g, t) && Distance(t) == Distance(g)
            && !Match(t, t.x1, t.y1) && !Match(t, t.x2 - 1, t.y2 - 1)
  {
    TrimStartKeepsDistance(g);
    TrimEndKeepsDistance(TrimStart(g));
  }

  // ----- Splitting

  /** A box that starts and ends with an edit takes at least two of them. */
  lemma AtLeastTwo(g: Grid)
    requires g.x1 < g.x2 && g.y1 < g.y2
    requires !Match(g, g.x1, g.y1) && !Match(g, g.x2 - 1, g.y2 - 1)
    ensures Distance(g) >= 2
  {
    DistanceFromEitherSide(g);
    ParityAndBounds(g, g.x2, g.y2);
    Neighbours(g, g.x2 - 1, g.y2 - 1);
    if Distance(g) == 1 {
      if From(g, g.x2 - 1, g.y2) == 0 {
        StraightPathMatches(g, g.x2 - 1, g.y2);
      } else {
        StraightPathMatches(g, g.x2, g.y2 - 1);
      }
      assert false;
    }
  }

  /** Without edits the first step is already free. */
  lemma {:induction false} StraightPathMatches(g: Grid, x: int, y: int)
    requires g.x1 <= x && g.y1 <= y && From(g, x, y) == 0 && (x > g.x1 || y > g.y1)
    ensures Match(g, g.x1, g.y1)
    decreases x - g.x1
  {
    if x - 1 > g.x1 || y - 1 > g.y1 {
      StraightPathMatches(g, x - 1, y - 1);
    }
  }

  /** The two boxes a split leaves.  joined = false is the recursion as it is
      written, which steps over the middle segment; joined = true lets both
      halves share the segment's far end. */
  ghost function Left(t: Grid, s: Segment, joined: bool): Grid {
    if joined then Sub(t, t.x1, t.y1, s.x2, s.y2) else Sub(t, t.x1, t.y1, s.x1, s.y1)
  }

  ghost function Right(t: Grid, s: Segment): Grid {
    Sub(t, s.x2, s.y2, t.x2, t.y2)
  }

  /** l and r are a proper split of t, with a stretch of one diagonal between them. */
  ghost predicate SplitInto(t: Grid, l: Grid, r: Grid) {
    && Valid(l) && Valid(r) && l.same == t.same == r.same
    && l.x1 == t.x1 && l.y1 == t.y1 && r.x2 == t.x2 && r.y2 == t.y2
    && l.x2 <= r.x1 && r.x1 - l.x2 == r.y1 - l.y2
    && Size(l) < Size(t) && Size(r) < Size(t)
    && Distance(l) + Distance(r) == Distance(t)
  }

  ghost predicate Splittable(t: Grid) {
    && t.x1 < t.x2 && t.y1 < t.y2
    && !Match(t, t.x1, t.y1) && !Match(t, t.x2 - 1, t.y2 - 1)
  }

  function Size(g: Grid): int {
    (g.x2 - g.x1) + (g.y2 - g.y1)
  }

  lemma SplitInside(t: Grid)
    requires Splittable(t)
    ensures var s := MiddleOf(t);
            && Inside(t, s.x1, s.y1) && Inside(t, s.x2, s.y2)
            && s.x1 <= s.x2 && s.x2 - s.x1 == s.y2 - s.y1
            && From(t, s.x1, s.y1) == From(t, s.x2, s.y2) == (Distance(t) + 1) / 2
            && To(t, s.x2, s.y2) == Distance(t) / 2
            && Distance(t) >= 2
  {
    hide From, To, Match, NoMeetingAbove;
    var s := MiddleOf(t);
    AtLeastTwo(t);
    MiddleOnShortestPath(t, s, 0);
    MiddleOnShortestPath(t, s, s.x2 - s.x1);
  }

  /** A split leaves two proper, strictly smaller boxes which share the distance
      between them, and steps over equally many elements on both sides. */
  lemma SplitFacts(t: Grid, joined: bool)
    requires Splittable(t)
    ensures var s := MiddleOf(t);
            var l, r := Left(t, s, joined), Right(t, s);
            SplitInto(t, l, r) && (joined ==> l.x2 == r.x1)
  {
    var s := MiddleOf(t);
    SplitInside(t);
    var x, y := if joined then s.x2 else s.x1, if joined then s.y2 else s.y1;
    hide IsMiddle;
    CutEnd(t, x, y);
    CutStart(t, s.x2, s.y2);
    assert To(t, t.x2, t.y2) == 0 && From(t, t.x1, t.y1) == 0;
  }

  // ----- The script

  function Deletions(lo: int, hi: int): seq<Edit>
    requires lo <= hi
    decreases hi - lo
  {
    if lo == hi then [] else Deletions(lo, hi - 1) + [Del(hi - 1)]
  }

  function Additions(lo: int, hi: int): seq<Edit>
    requires lo <= hi
    decreases hi - lo
  {
    if lo == hi then [] else Additions(lo, hi - 1) + [Add(hi - 1)]
  }

  /** The callbacks made for a box, in order. */
  ghost function Script(g: Grid, joined: bool): seq<Edit>
    requires Valid(g)
    decreases Size(g), 1
  {
    TrimFacts(g);
    TrimmedScript(Trim(g), joined)
  }

  ghost predicate Trimmed(t: Grid) {
    Valid(t) && (t.x1 < t.x2 && t.y1 < t.y2 ==> Splittable(t))
  }

  ghost function TrimmedScript(t: Grid, joined: bool): seq<Edit>
    requires Trimmed(t)
    decreases Size(t), 0
  {
    if t.x1 < t.x2 && t.y1 < t.y2 then
      SplitFacts(t, joined);
      var s := MiddleOf(t);
      Script(Left(t, s, joined), joined) + Script(Right(t, s), joined)
    else if t.x1 < t.x2 then Deletions(t.x1, t.x2)
    else Additions(t.y1, t.y2)
  }

  /** The elements of a from lo up to hi and their partners on diagonal k. */
  datatype Stretch = Stretch(k: int, lo: int, hi: int)

  /** What lies between the two boxes of a split, on their common diagonal. */
  function Between(l: Grid, r: Grid): Stretch {
    Stretch(l.x2 - l.y2, l.x2, r.x1)
  }

  function Around(p: seq<Stretch>, s: Stretch, q: seq<Stretch>): seq<Stretch> {
    p + [s] + q
  }

  /** The stretches the recursion steps over, at every level. */
  ghost function Skipped(g: Grid, joined: bool): seq<Stretch>
    requires Valid(g)
    decreases Size(g), 1
  {
    TrimFacts(g);
    TrimmedSkipped(Trim(g), joined)
  }

  ghost function TrimmedSkipped(t: Grid, joined: bool): seq<Stretch>
    requires Trimmed(t)
    decreases Size(t), 0
  {
    if t.x1 < t.x2 && t.y1 < t.y2 then
      SplitFacts(t, joined);
      var s := MiddleOf(t);
      var l, r := Left(t, s, joined), Right(t, s);
      Around(Skipped(l, joined), Between(l, r), Skipped(r, joined))
    else []
  }

  ghost predicate EqualBetween(same: (int, int) -> bool, s: Stretch) {
    AllSame(same, s.k, s.lo, s.hi)
  }

  /** Everything stepped over compared equal. */
  ghost predicate AllEqual(same: (int, int) -> bool, q: seq<Stretch>) {
    forall i :: 0 <= i < |q| ==> EqualBetween(same, q[i])
  }

  lemma AllEqualAround(same: (int, int) -> bool, p: seq<Stretch>, s: Stretch, q: seq<Stretch>)
    ensures AllEqual(same, Around(p, s, q)) ==
              (EqualBetween(same, s) && AllEqual(same, p) && AllEqual(same, q))
  {
    var w := Around(p, s, q);
    assert w[|p|] == s;
    assert forall i :: 0 <= i < |p| ==> w[i] == p[i];
    assert forall i :: 0 <= i < |q| ==> w[|p| + 1 + i] == q[i];
  }

  /** A point from which no edit is needed is the far corner, or the box ends in equal elements. */
  lemma {:induction false} StraightEndMatches(g: Grid, x: int, y: int)
    requires x <= g.x2 && y <= g.y2 && To(g, x, y) == 0 && (x < g.x2 || y < g.y2)
    ensures Match(g, g.x2 - 1, g.y2 - 1)
    decreases g.x2 - x
  {
    if x + 1 < g.x2 || y + 1 < g.y2 {
      StraightEndMatches(g, x + 1, y + 1);
    }
  }

  /** Two points in a row from which one edit is needed lie on either side of an equal pair. */
  lemma OneEditLeft(t: Grid, x: int, y: int)
    requires !Match(t, t.x2 - 1, t.y2 - 1) && x < t.x2 && y < t.y2
    requires To(t, x, y) == 1 && To(t, x + 1, y + 1) == 1
    ensures Match(t, x, y)
  {
    hide From, To, Match;
    if !Match(t, x, y) {
      ToUnfolds(t, x, y);
      if To(t, x, y + 1) == 0 {
        StraightEndMatches(t, x, y + 1);
      } else {
        StraightEndMatches(t, x + 1, y);
      }
    }
  }

  /** With one edit left behind it, the middle segment consists of equal pairs. */
  lemma NearMiddleMatches(t: Grid, k: int, x: int)
    requires Splittable(t) && Distance(t) <= 3
    requires var s := MiddleOf(t); s.x1 <= x < s.x2 && k == s.x1 - s.y1
    ensures Match(t, x, x - k)
  {
    hide From, To, Distance, IsMiddle, Match, MiddleOf;
    var s := MiddleOf(t);
    SplitInside(t);
    MiddleDistance(t);
    MiddleOnShortestPath(t, s, x - s.x1);
    MiddleOnShortestPath(t, s, x + 1 - s.x1);
    OneEditLeft(t, x, x - k);
  }

  lemma MiddleDistance(t: Grid)
    requires t.x1 < t.x2 && t.y1 < t.y2
    ensures MiddleOf(t).d == Distance(t) && IsMiddle(t, MiddleOf(t))
  {
  }

  lemma NearMiddleSame(t: Grid, l: Grid, r: Grid)
    requires Splittable(t) && Distance(t) <= 3
    requires l == Left(t, MiddleOf(t), false) && r == Right(t, MiddleOf(t))
    ensures EqualBetween(t.same, Between(l, r))
  {
    var k := l.x2 - l.y2;
    forall x | l.x2 <= x < r.x1 ensures SameOn(t.same, x, k) {
      NearMiddleMatches(t, k, x);
    }
  }

  /** A box that takes at most three edits is split between equal pairs only, at every level. */
  lemma {:induction false} NearSkipsEqual(g: Grid)
    requires Valid(g) && Distance(g) <= 3
    ensures AllEqual(g.same, Skipped(g, false))
    decreases Size(g)
  {
    hide IsMiddle, Script, Skipped, From, To, Trim, Distance, EqualBetween, Between, Around, MiddleOf, Left, Right;
    TrimFacts(g);
    var t, l, r := SplitScript(g, false);
    if t.x1 < t.x2 && t.y1 < t.y2 {
      NearMiddleSame(t, l, r);
      NearSkipsEqual(l);
      NearSkipsEqual(r);
      AllEqualAround(g.same, Skipped(l, false), Between(l, r), Skipped(r, false));
    }
  }

  lemma {:induction false} RunLength(lo: int, hi: int)
    requires lo <= hi
    ensures |Deletions(lo, hi)| == |Additions(lo, hi)| == hi - lo
    decreases hi - lo
  {
    if lo < hi { RunLength(lo, hi - 1); }
  }

  /** What every induction over a script needs to know about one level. */
  lemma SplitScript(g: Grid, joined: bool) returns (t: Grid, l: Grid, r: Grid)
    requires Valid(g)
    ensures t == Trim(g) && TrimmedTo(g, t) && Distance(t) == Distance(g)
    ensures if t.x1 < t.x2 && t.y1 < t.y2 then
              && Splittable(t) && l == Left(t, MiddleOf(t), joined) && r == Right(t, MiddleOf(t))
              && SplitInto(t, l, r) && (joined ==> l.x2 == r.x1)
              && Script(g, joined) == Script(l, joined) + Script(r, joined)
              && Skipped(g, joined) == Around(Skipped(l, joined), Between(l, r), Skipped(r, joined))
            else
              && Skipped(g, joined) == []
              && if t.x1 < t.x2 then t.y1 == t.y2 && Script(g, joined) == Deletions(t.x1, t.x2)
                 else t.x1 == t.x2 && Script(g, joined) == Additions(t.y1, t.y2)
  {
    TrimFacts(g);
    t, l, r := Trim(g), g, g;
    hide AllSame, IsMiddle, Distance, Around, Between, Trim;
    if t.x1 < t.x2 && t.y1 < t.y2 {
      SplitFacts(t, joined);
      l, r := Left(t, MiddleOf(t), joined), Right(t, MiddleOf(t));
    }
  }

  /** With or without the skipped segment, the script is as long as the distance. */
  lemma {:induction false} ScriptLength(g: Grid, joined: bool)
    requires Valid(g)
    ensures |Script(g, joined)| == Distance(g)
    decreases Size(g)
  {
    var t, l, r := SplitScript(g, joined);
    if t.x1 < t.x2 && t.y1 < t.y2 {
      ScriptLength(l, joined);
      ScriptLength(r, joined);
    } else {
      RunLength(t.x1, t.x2);
      RunLength(t.y1, t.y2);
    }
  }

  // ----- Accounting

  function Deleted(s: seq<Edit>): seq<int> {
    if s == [] then [] else Deleted(s[..|s| - 1]) + (if s[|s| - 1].Del? then [s[|s| - 1].i] else [])
  }

  function Added(s: seq<Edit>): seq<int> {
    if s == [] then [] else Added(s[..|s| - 1]) + (if s[|s| - 1].Add? then [s[|s| - 1].j] else [])
  }

  /** Strictly increasing and between lo and hi. */
  ghost predicate Ascending(q: seq<int>, lo: int, hi: int) {
    && (forall i :: 0 <= i < |q| ==> lo <= q[i] < hi)
    && (forall i, j :: 0 <= i < j < |q| ==> q[i] < q[j])
  }

  lemma {:induction false} Concatenation(s: seq<Edit>, t: seq<Edit>)
    ensures Deleted(s + t) == Deleted(s) + Deleted(t)
    ensures Added(s + t) == Added(s) + Added(t)
  {
    if t == [] {
      assert s + t == s;
    } else {
      Concatenation(s, t[..|t| - 1]);
      assert (s + t)[..|s + t| - 1] == s + t[..|t| - 1];
    }
  }

  lemma LastEdit(s: seq<Edit>, e: Edit)
    ensures Deleted(s + [e]) == Deleted(s) + (if e.Del? then [e.i] else [])
    ensures Added(s + [e]) == Added(s) + (if e.Add? then [e.j] else [])
  {
    assert (s + [e])[..|s + [e]| - 1] == s;
  }

  lemma AscendingNext(q: seq<int>, lo: int, hi: int)
    requires Ascending(q, lo, hi) && lo <= hi
    ensures Ascending(q + [hi], lo, hi + 1)
  {
  }

  lemma AscendingWithin(q: seq<int>, lo: int, hi: int, from: int, until: int)
    requires Ascending(q, lo, hi) && from <= lo && hi <= until
    ensures Ascending(q, from, until)
  {
  }

  lemma {:induction false} RunAccounting(lo: int, hi: int)
    requires lo <= hi
    ensures Added(Deletions(lo, hi)) == [] == Deleted(Additions(lo, hi))
    ensures |Deleted(Deletions(lo, hi))| == |Added(Additions(lo, hi))| == hi - lo
    ensures Ascending(Deleted(Deletions(lo, hi)), lo, hi)
    ensures Ascending(Added(Additions(lo, hi)), lo, hi)
    decreases hi - lo
  {
    if lo < hi {
      RunAccounting(lo, hi - 1);
      hide Deleted, Added, Ascending;
      LastEdit(Deletions(lo, hi - 1), Del(hi - 1));
      LastEdit(Additions(lo, hi - 1), Add(hi - 1));
      AscendingNext(Deleted(Deletions(lo, hi - 1)), lo, hi - 1);
      AscendingNext(Added(Additions(lo, hi - 1)), lo, hi - 1);
    }
  }

  /** The script deletes and adds indices of the box in strictly increasing
      order, and keeps as many elements of a as of b. */
  ghost predicate Accounted(g: Grid, s: seq<Edit>) {
    && Ascending(Deleted(s), g.x1, g.x2)
    && Ascending(Added(s), g.y1, g.y2)
    && |Deleted(s)| + |Added(s)| == |s|
    && (g.x2 - g.x1) - |Deleted(s)| == (g.y2 - g.y1) - |Added(s)|
  }

  lemma AscendingConcatenation(p: seq<int>, q: seq<int>, lo: int, mid: int, next: int, hi: int)
    requires lo <= mid <= next <= hi && Ascending(p, lo, mid) && Ascending(q, next, hi)
    ensures Ascending(p + q, lo, hi)
  {
  }

  lemma AccountedDeletions(g: Grid, t: Grid)
    requires TrimmedTo(g, t) && t.y1 == t.y2
    ensures Accounted(g, Deletions(t.x1, t.x2))
  {
    RunAccounting(t.x1, t.x2);
    RunLength(t.x1, t.x2);
    hide Deletions, Additions, Deleted, Added, AllSame;
    AscendingWithin(Deleted(Deletions(t.x1, t.x2)), t.x1, t.x2, g.x1, g.x2);
  }

  lemma AccountedAdditions(g: Grid, t: Grid)
    requires TrimmedTo(g, t) && t.x1 == t.x2
    ensures Accounted(g, Additions(t.y1, t.y2))
  {
    RunAccounting(t.y1, t.y2);
    RunLength(t.y1, t.y2);
    hide Deletions, Additions, Deleted, Added, AllSame;
    AscendingWithin(Added(Additions(t.y1, t.y2)), t.y1, t.y2, g.y1, g.y2);
  }

  lemma AccountedConcatenation(g: Grid, t: Grid, l: Grid, r: Grid, s1: seq<Edit>, s2: seq<Edit>)
    requires TrimmedTo(g, t) && SplitInto(t, l, r) && Accounted(l, s1) && Accounted(r, s2)
    ensures Accounted(g, s1 + s2)
  {
    Concatenation(s1, s2);
    AscendingConcatenation(Deleted(s1), Deleted(s2), g.x1, l.x2, r.x1, g.x2);
    AscendingConcatenation(Added(s1), Added(s2), g.y1, l.y2, r.y1, g.y2);
  }

  /** Every script is accounted for, with or without the skip. */
  lemma {:induction false} Accounting(g: Grid, joined: bool)
    requires Valid(g)
    ensures Accounted(g, Script(g, joined))
    decreases Size(g)
  {
    var t, l, r := SplitScript(g, joined);
    hide Accounted, Trim, Script, Distance;
    if t.x1 < t.x2 && t.y1 < t.y2 {
      Accounting(l, joined);
      Accounting(r, joined);
      AccountedConcatenation(g, t, l, r, Script(l, joined), Script(r, joined));
    } else {
      if t.x1 < t.x2 { AccountedDeletions(g, t); } else { AccountedAdditions(g, t); }
    }
  }

  // ----- Where the edits are

  /** Every edit of a script lies at or behind (x, y). */
  ghost predicate Behind(s: seq<Edit>, x: int, y: int) {
    forall k :: 0 <= k < |s| ==> match s[k] case Del(i) => x <= i case Add(j) => y <= j
  }

  /** Every edit of a script lies before (x, y). */
  ghost predicate InFront(s: seq<Edit>, x: int, y: int) {
    forall k :: 0 <= k < |s| ==> match s[k] case Del(i) => i < x case Add(j) => j < y
  }

  lemma {:induction false} EditOf(s: seq<Edit>, k: int)
    requires 0 <= k < |s|
    ensures s[k].Del? ==> s[k].i in Deleted(s)
    ensures s[k].Add? ==> s[k].j in Added(s)
    decreases |s|
  {
    var front := s[..|s| - 1];
    if k < |front| {
      EditOf(front, k);
    }
  }

  /** A script stays within its box. */
  lemma WithinBox(g: Grid, joined: bool)
    requires Valid(g)
    ensures Behind(Script(g, joined), g.x1, g.y1) && InFront(Script(g, joined), g.x2, g.y2)
  {
    hide Script, Deleted, Added;
    var s := Script(g, joined);
    Accounting(g, joined);
    forall k | 0 <= k < |s|
      ensures match s[k] case Del(i) => g.x1 <= i < g.x2 case Add(j) => g.y1 <= j < g.y2
    {
      EditOf(s, k);
    }
  }

  lemma {:induction false} RunWithin(lo: int, hi: int, other: int)
    requires lo <= hi
    ensures Behind(Deletions(lo, hi), lo, other) && InFront(Deletions(lo, hi), hi, other)
    ensures Behind(Additions(lo, hi), other, lo) && InFront(Additions(lo, hi), other, hi)
    decreases hi - lo
  {
    if lo < hi { RunWithin(lo, hi - 1, other); }
  }

  lemma BehindBoth(p: seq<Edit>, q: seq<Edit>, x: int, y: int, x': int, y': int)
    requires Behind(p, x, y) && Behind(q, x', y') && x <= x' && y <= y'
    ensures Behind(p + q, x, y)
  {
  }

  lemma InFrontOfBoth(p: seq<Edit>, q: seq<Edit>, x: int, y: int, x': int, y': int)
    requires InFront(p, x, y) && InFront(q, x', y') && x <= x' && y <= y'
    ensures InFront(p + q, x', y')
  {
  }

  /** A script even stays within what trimming leaves of its box. */
  lemma WithinTrimmed(g: Grid, joined: bool)
    requires Valid(g)
    ensures var t := Trim(g);
            Behind(Script(g, joined), t.x1, t.y1) && InFront(Script(g, joined), t.x2, t.y2)
  {
    var t, l, r := SplitScript(g, joined);
    hide Trim, Script, Skipped, Distance, Left, Right, AllSame, Behind, InFront, MiddleOf;
    if t.x1 < t.x2 && t.y1 < t.y2 {
      WithinBox(l, joined);
      WithinBox(r, joined);
      BehindBoth(Script(l, joined), Script(r, joined), t.x1, t.y1, r.x1, r.y1);
      InFrontOfBoth(Script(l, joined), Script(r, joined), l.x2, l.y2, t.x2, t.y2);
    } else {
      RunWithin(t.x1, t.x2, t.y1);
      RunWithin(t.y1, t.y2, t.x1);
    }
  }

  /** No edit falls into a common prefix of the box. */
  lemma PrefixUntouched(g: Grid, p: int, joined: bool)
    requires Valid(g) && 0 <= p <= g.x2 - g.x1 && p <= g.y2 - g.y1
    requires AllSame(g.same, g.x1 - g.y1, g.x1, g.x1 + p)
    ensures Behind(Script(g, joined), g.x1 + p, g.y1 + p)
  {
    hide Script, TrimEnd;
    var u, t := TrimStart(g), Trim(g);
    WithinTrimmed(g, joined);
    assert u.x1 < g.x1 + p ==> SameOn(g.same, u.x1, g.x1 - g.y1);
  }

  /** Behind the longest common prefix, no edit falls into a common suffix of the rest. */
  lemma SuffixUntouched(g: Grid, p: int, q: int, joined: bool)
    requires Valid(g) && 0 <= p <= g.x2 - g.x1 && p <= g.y2 - g.y1
    requires AllSame(g.same, g.x1 - g.y1, g.x1, g.x1 + p)
    requires p == g.x2 - g.x1 || p == g.y2 - g.y1 || !g.same(g.x1 + p, g.y1 + p)
    requires 0 <= q <= g.x2 - g.x1 - p && q <= g.y2 - g.y1 - p
    requires AllSame(g.same, g.x2 - g.y2, g.x2 - q, g.x2)
    ensures InFront(Script(g, joined), g.x2 - q, g.y2 - q)
  {
    hide Script;
    var u, t := TrimStart(g), Trim(g);
    LongestPrefix(g, p);
    WithinTrimmed(g, joined);
    hide TrimStart, TrimEnd;
    assert t.x2 > g.x2 - q ==> SameOn(g.same, t.x2 - 1, g.x2 - g.y2);
  }

  lemma LongestPrefix(g: Grid, p: int)
    requires Valid(g) && 0 <= p <= g.x2 - g.x1 && p <= g.y2 - g.y1
    requires AllSame(g.same, g.x1 - g.y1, g.x1, g.x1 + p)
    requires p == g.x2 - g.x1 || p == g.y2 - g.y1 || !g.same(g.x1 + p, g.y1 + p)
    ensures TrimStart(g).x1 == g.x1 + p && TrimStart(g).y1 == g.y1 + p
  {
    hide TrimStart;
    var u := TrimStart(g);
    assert u.x1 < g.x1 + p ==> SameOn(g.same, u.x1, g.x1 - g.y1);
    assert u.x1 > g.x1 + p ==> SameOn(g.same, g.x1 + p, g.x1 - g.y1);
  }

  /** In a box that starts and ends with an edit, the first half of the edits,
      rounded up, lies before the middle segment, or before its far end if the
      halves share that, and all others at or behind its far end; both halves are
      the scripts of what lies on their side. */
  lemma MiddleSplits(t: Grid, s: Segment, joined: bool)
    requires Valid(t) && Splittable(t) && IsMiddle(t, s)
    ensures var q, h := Script(t, joined), (Distance(t) + 1) / 2;
            var x, y := if joined then s.x2 else s.x1, if joined then s.y2 else s.y1;
            && |q| == Distance(t) && h <= |q|
            && InFront(q[..h], x, y) && Behind(q[h..], s.x2, s.y2)
            && Inside(t, x, y) && q[..h] == Script(Grid(t.x1, t.y1, x, y, t.same), joined)
            && Inside(t, s.x2, s.y2) && q[h..] == Script(Grid(s.x2, s.y2, t.x2, t.y2, t.same), joined)
  {
    NothingToTrim(t);
    var u, l, r := SplitScript(t, joined);
    MiddleIsUnique(t, s, MiddleOf(t));
    SplitInside(t);
    hide Script, Skipped, Trim, IsMiddle, AllSame, Match, From, To, MiddleOf;
    ScriptLength(t, joined);
    ScriptLength(l, joined);
    ScriptLength(r, joined);
    WithinBox(l, joined);
    WithinBox(r, joined);
    CutStart(t, s.x2, s.y2);
    var q, h := Script(t, joined), (Distance(t) + 1) / 2;
    assert |Script(l, joined)| == h;
    assert q[..h] == Script(l, joined) && q[h..] == Script(r, joined);
  }

  lemma NothingToTrim(t: Grid)
    requires Valid(t) && Splittable(t)
    ensures Trim(t) == t
  {
    TrimStartStep(t);
    TrimEndStep(t);
  }

  // ----- The recursion as the program runs it

  lemma TrimStartStep(g: Grid)
    requires Valid(g)
    ensures TrimStart(g) == if g.x1 < g.x2 && g.y1 < g.y2 && g.same(g.x1, g.y1)
                            then TrimStart(Grid(g.x1 + 1, g.y1 + 1, g.x2, g.y2, g.same)) else g
  {
    hide AllSame;
  }

  lemma TrimEndStep(g: Grid)
    requires Valid(g)
    ensures TrimEnd(g) == if g.x2 > g.x1 && g.y2 > g.y1 && g.same(g.x2 - 1, g.y2 - 1)
                          then TrimEnd(Grid(g.x1, g.y1, g.x2 - 1, g.y2 - 1, g.same)) else g
  {
    hide AllSame;
  }

  /** What the callbacks do to the caller's data: they append. */
  class Log {
    var edits: seq<Edit>

    constructor ()
      ensures edits == []
    {
      edits := [];
    }

    method Del(i: int)
      modifies this
      ensures edits == old(edits) + [Edit.Del(i)]
    {
      edits := edits + [Edit.Del(i)];
    }

    method Add(j: int)
      modifies this
      ensures edits == old(edits) + [Edit.Add(j)]
    {
      edits := edits + [Edit.Add(j)];
    }
  }

  /** The loop over the common prefix. */
  method SkipPrefix(ghost g: Grid, same: (int, int) -> bool, copy: Box)
    requires g == copy.Region(same) && Valid(g)
    modifies copy
    ensures copy.Region(same) == TrimStart(g)
  {
    hide AllSame, TrimStart;
    while copy.x1 < copy.x2 && copy.y1 < copy.y2 && same(copy.x1, copy.y1)
      invariant Valid(copy.Region(same)) && TrimStart(copy.Region(same)) == TrimStart(g)
      decreases copy.x2 - copy.x1
    {
      TrimStartStep(copy.Region(same));
      copy.x1, copy.y1 := copy.x1 + 1, copy.y1 + 1;
    }
    TrimStartStep(copy.Region(same));
  }

  /** The loop over the common suffix. */
  method SkipSuffix(ghost g: Grid, same: (int, int) -> bool, copy: Box)
    requires g == copy.Region(same) && Valid(g)
    modifies copy
    ensures copy.Region(same) == TrimEnd(g)
  {
    hide AllSame, TrimEnd, Match, Inside, Sub;
    while copy.x2 > copy.x1 && copy.y2 > copy.y1 && same(copy.x2 - 1, copy.y2 - 1)
      invariant Valid(copy.Region(same)) && TrimEnd(copy.Region(same)) == TrimEnd(g)
      decreases copy.x2 - copy.x1
    {
      TrimEndStep(copy.Region(same));
      copy.x2, copy.y2 := copy.x2 - 1, copy.y2 - 1;
    }
    TrimEndStep(copy.Region(same));
  }

  /** The loops over a box with nothing left on one side. */
  method EmitRest(copy: Box, log: Log)
    requires copy.x1 <= copy.x2 && copy.y1 <= copy.y2 && (copy.x1 == copy.x2 || copy.y1 == copy.y2)
    modifies log
    ensures log.edits == old(log.edits) +
              if copy.x1 < copy.x2 then Deletions(copy.x1, copy.x2) else Additions(copy.y1, copy.y2)
  {
    if copy.x1 < copy.x2 {
      var i := copy.x1;
      while i < copy.x2
        invariant copy.x1 <= i <= copy.x2 && log.edits == old(log.edits) + Deletions(copy.x1, i)
      {
        log.Del(i);
        i := i + 1;
      }
    } else {
      var i := copy.y1;
      while i < copy.y2
        invariant copy.y1 <= i <= copy.y2 && log.edits == old(log.edits) + Additions(copy.y1, i)
      {
        log.Add(i);
        i := i + 1;
      }
    }
  }

  /** Finds the middle of a box that starts and ends with an edit, and makes the two boxes. */
  method SplitBox(ghost t: Grid, same: (int, int) -> bool, copy: Box, joined: bool) returns (box1: Box, box2: Box)
    requires t == copy.Region(same) && Splittable(t)
    ensures fresh(box1) && fresh(box2)
    ensures box1.Region(same) == Left(t, MiddleOf(t), joined) && box2.Region(same) == Right(t, MiddleOf(t))
  {
    var middle := new Box(copy.x1, copy.y1, copy.x2, copy.y2);
    var found, _, _ := FindMiddle(t, same, middle);
    MiddleIsUnique(t, MiddleOf(t), middle.Answer());
    var x, y := if joined then middle.x2 else middle.x1, if joined then middle.y2 else middle.y1;
    box1 := new Box(copy.x1, copy.y1, x, y);
    box2 := new Box(middle.x2, middle.y2, copy.x2, copy.y2);
  }

  /** Copies the box and trims the copy. */
  method TrimmedCopy(ghost g: Grid, same: (int, int) -> bool, box: Box) returns (copy: Box)
    requires g == box.Region(same) && Valid(g)
    ensures fresh(copy) && copy.Region(same) == Trim(g)
  {
    copy := new Box(box.x1, box.y1, box.x2, box.y2);
    SkipPrefix(g, same, copy);
    SkipSuffix(TrimStart(g), same, copy);
  }

  /** Emits the script of the box.  joined = false is the program as written. */
  method ShortestEditScript(ghost g: Grid, same: (int, int) -> bool, box: Box, log: Log, joined: bool)
    requires g == box.Region(same) && Valid(g)
    modifies log
    ensures log.edits == old(log.edits) + Script(g, joined)
    decreases Size(g)
  {
    ghost var t, l, r := SplitScript(g, joined);
    assert t.x1 < t.x2 && t.y1 < t.y2 ==> Size(l) >= 0 && Size(r) >= 0;
    var copy := TrimmedCopy(g, same, box);
    assert copy.x1 == t.x1 && copy.x2 == t.x2 && copy.y1 == t.y1 && copy.y2 == t.y2;
    hide *;
    var n, m := copy.x2 - copy.x1, copy.y2 - copy.y1;
    if n > 0 && m > 0 {
      var box1, box2 := SplitBox(t, same, copy, joined);
      ghost var before := log.edits;
      ShortestEditScript(l, same, box1, log, joined);
      ShortestEditScript(r, same, box2, log, joined);
      Associative(before, Script(l, joined), Script(r, joined));
    } else {
      EmitRest(copy, log);
    }
  }
}
