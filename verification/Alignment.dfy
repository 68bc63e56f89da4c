/** The edit distance and the longest common subsequence. */
module Alignment {
  import opened EditGrid
  import opened EditScript

  /** Pairs of equal elements that go strictly forward in both sequences and lie before (x, y). */
  ghost predicate Aligned(g: Grid, s: seq<(int, int)>, x: int, y: int) {
    && (forall i :: 0 <= i < |s| ==> Match(g, s[i].0, s[i].1) && s[i].0 < x && s[i].1 < y)
    && (forall i, j :: 0 <= i < j < |s| ==> s[i].0 < s[j].0 && s[i].1 < s[j].1)
  }

  /** A common subsequence of the two sides of the box. */
  ghost predicate CommonSubsequence(g: Grid, s: seq<(int, int)>) {
    Aligned(g, s, g.x2, g.y2)
  }

  lemma {:induction false} GoingOnCosts(g: Grid, x: int, y: int, x': int, y': int)
    requires g.x1 <= x <= x' && g.y1 <= y <= y'
    ensures From(g, x', y') <= From(g, x, y) + (x' - x) + (y' - y)
    decreases (x' - x) + (y' - y)
  {
    if x < x' {
      GoingOnCosts(g, x, y, x' - 1, y');
      Neighbours(g, x' - 1, y');
    } else if y < y' {
      GoingOnCosts(g, x, y, x', y' - 1);
      Neighbours(g, x', y' - 1);
    }
  }

  /** Every kept pair saves two edits. */
  lemma {:induction false} AlignmentBound(g: Grid, s: seq<(int, int)>, x: int, y: int)
    requires g.x1 <= x && g.y1 <= y && Aligned(g, s, x, y)
    ensures From(g, x, y) + 2 * |s| <= (x - g.x1) + (y - g.y1)
    decreases |s|
  {
    if s == [] {
      ParityAndBounds(g, x, y);
    } else {
      var last := s[|s| - 1];
      AlignmentBound(g, s[..|s| - 1], last.0, last.1);
      MatchIsFree(g, last.0, last.1);
      GoingOnCosts(g, last.0 + 1, last.1 + 1, x, y);
    }
  }

  lemma {:induction false} BestAlignment(g: Grid, x: int, y: int) returns (s: seq<(int, int)>)
    requires g.x1 <= x && g.y1 <= y
    ensures Aligned(g, s, x, y)
    ensures From(g, x, y) + 2 * |s| == (x - g.x1) + (y - g.y1)
    decreases (x - g.x1) + (y - g.y1)
  {
    if x == g.x1 || y == g.y1 {
      s := [];
    } else if Match(g, x - 1, y - 1) {
      s := BestAlignment(g, x - 1, y - 1);
      s := s + [(x - 1, y - 1)];
    } else if From(g, x - 1, y) <= From(g, x, y - 1) {
      s := BestAlignment(g, x - 1, y);
    } else {
      s := BestAlignment(g, x, y - 1);
    }
  }

  ghost predicate LongestCommonSubsequence(g: Grid, s: seq<(int, int)>) {
    && CommonSubsequence(g, s)
    && forall t :: CommonSubsequence(g, t) ==> |t| <= |s|
  }

  lemma LongestExists(g: Grid) returns (s: seq<(int, int)>)
    requires Valid(g)
    ensures LongestCommonSubsequence(g, s)
    ensures Distance(g) == Size(g) - 2 * |s|
  {
    s := BestAlignment(g, g.x2, g.y2);
    forall t | CommonSubsequence(g, t) ensures |t| <= |s| {
      AlignmentBound(g, t, g.x2, g.y2);
    }
  }

  /** The program makes n + m - 2 * LCS callbacks, as written and repaired. */
  lemma ScriptLengthIsLcs(g: Grid, joined: bool, s: seq<(int, int)>)
    requires Valid(g) && LongestCommonSubsequence(g, s)
    ensures |Script(g, joined)| == (g.x2 - g.x1) + (g.y2 - g.y1) - 2 * |s|
  {
    var best := LongestExists(g);
    ScriptLength(g, joined);
  }
}
