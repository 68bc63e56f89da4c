/** Furthest-reaching points and the place where two frontiers meet. */
module Frontier {
  import opened EditGrid

  /** The row of the point with column x on diagonal k. */
  function Row(g: Grid, k: int, x: int): int {
    x - g.x1 - k + g.y1
  }

  /** The column of the point with row y on diagonal k. */
  function Column(g: Grid, k: int, y: int): int {
    y - g.y1 + k + g.x1
  }

  /** x is the last column on diagonal k that d edits reach from the near corner. */
  ghost predicate Furthest(g: Grid, k: int, d: int, x: int) {
    var y := Row(g, k, x);
    g.x1 <= x && g.y1 <= y && From(g, x, y) <= d < From(g, x + 1, y + 1)
  }

  /** y is the first row on diagonal k from which d edits reach the far corner. */
  ghost predicate FurthestBack(g: Grid, k: int, d: int, y: int) {
    var x := Column(g, k, y);
    x <= g.x2 && y <= g.y2 && To(g, x, y) <= d < To(g, x - 1, y - 1)
  }

  lemma FlipFurthest(g: Grid, k: int, d: int, y: int)
    ensures FurthestBack(g, k, d, y) == Furthest(Flip(g), k - Delta(g), d, -y)
  {
    var x := Column(g, k, y);
    if x <= g.x2 && y <= g.y2 {
      FlipTo(g, x, y);
      FlipTo(g, x - 1, y - 1);
    }
  }

  lemma FlipFurthestBack(g: Grid, k: int, d: int, x: int)
    ensures Furthest(g, k, d, x) == FurthestBack(Flip(g), k - Delta(g), d, -x)
  {
    var y := Row(g, k, x);
    if g.x1 <= x && g.y1 <= y {
      FlipFrom(g, x, y);
      FlipFrom(g, x + 1, y + 1);
    }
  }

  /** Furthest means furthest: the points within d edits are those up to x. */
  lemma FurthestIsLast(g: Grid, k: int, d: int, x: int, x': int)
    requires Furthest(g, k, d, x) && g.x1 <= x' && g.y1 <= Row(g, k, x')
    ensures From(g, x', Row(g, k, x')) <= d <==> x' <= x
  {
    if x' <= x {
      MonotoneAlongDiagonal(g, x', Row(g, k, x'), x - x');
    } else {
      MonotoneAlongDiagonal(g, x + 1, Row(g, k, x + 1), x' - x - 1);
    }
  }

  lemma FurthestBackIsFirst(g: Grid, k: int, d: int, y: int, y': int)
    requires FurthestBack(g, k, d, y) && y' <= g.y2 && Column(g, k, y') <= g.x2
    ensures To(g, Column(g, k, y'), y') <= d <==> y <= y'
  {
    FlipFurthest(g, k, d, y);
    FurthestIsLast(Flip(g), k - Delta(g), d, -y, -y');
    FlipTo(g, Column(g, k, y'), y');
  }

  /** d edits get exactly d far: on a diagonal of the right parity nothing is left over. */
  lemma FurthestIsExact(g: Grid, k: int, d: int, x: int)
    requires Furthest(g, k, d, x) && (k - d) % 2 == 0
    ensures From(g, x, Row(g, k, x)) == d
  {
    ParityAndBounds(g, x, Row(g, k, x));
    Neighbours(g, x, Row(g, k, x));
  }

  // ----- One cell of a round

  /** The better of the two neighbouring cells of the previous round. */
  function Candidate(k: int, d: int, left: int, right: int): int {
    if k == -d || (k != d && left < right) then right else left + 1
  }

  /** left and right are what round d - 1 stored next to diagonal k. */
  ghost predicate Prepared(g: Grid, k: int, d: int, left: int, right: int) {
    && 0 <= Abs(k) <= d
    && (d == 0 ==> right == g.x1)
    && (d > 0 && k != -d ==> Furthest(g, k - 1, d - 1, left))
    && (d > 0 && k != d ==> Furthest(g, k + 1, d - 1, right))
  }

  /** Stepping over from the better neighbour costs one edit. */
  lemma CandidateReached(g: Grid, k: int, d: int, left: int, right: int)
    requires Prepared(g, k, d, left, right)
    ensures var x := Candidate(k, d, left, right);
            g.x1 <= x && g.y1 <= Row(g, k, x) && From(g, x, Row(g, k, x)) <= d
  {
    hide From;
    var x := Candidate(k, d, left, right);
    if d == 0 {
      FromEdge(g, g.x1, g.y1);
    } else {
      if k < d && (Abs(k) == d || left < right) {
        Neighbours(g, x, Row(g, k, x) - 1);
      } else {
        Neighbours(g, x - 1, Row(g, k, x));
      }
    }
  }

  /** Below and to the right of the candidate's diagonal, d - 1 edits do not suffice. */
  lemma SidesBeyondReach(g: Grid, k: int, d: int, left: int, right: int, x: int)
    requires Prepared(g, k, d, left, right)
    requires Candidate(k, d, left, right) <= x && g.x1 <= x && g.y1 <= Row(g, k, x)
    ensures From(g, x, Row(g, k, x) + 1) >= d && From(g, x + 1, Row(g, k, x)) >= d
  {
    hide From, Furthest;
    ParityAndBounds(g, x, Row(g, k, x) + 1);
    ParityAndBounds(g, x + 1, Row(g, k, x));
    if d > 0 && k != -d {
      FurthestIsLast(g, k - 1, d - 1, left, x);
    }
    if d > 0 && k != d {
      FurthestIsLast(g, k + 1, d - 1, right, x + 1);
    }
  }

  /** Where the free steps after the candidate end, d edits can reach no further. */
  lemma SlideStops(g: Grid, k: int, d: int, left: int, right: int, x: int)
    requires Prepared(g, k, d, left, right)
    requires Candidate(k, d, left, right) <= x && g.x1 <= x && g.y1 <= Row(g, k, x)
    requires From(g, x, Row(g, k, x)) <= d && !Match(g, x, Row(g, k, x))
    ensures Furthest(g, k, d, x)
  {
    SidesBeyondReach(g, k, d, left, right, x);
  }

  // ----- Meeting

  /** The forward frontier after i edits and the backward one after j overlap on diagonal k. */
  ghost predicate Overlap(g: Grid, k: int, i: int, j: int, x: int, y: int) {
    && Abs(k) <= i && Abs(k - Delta(g)) <= j && (k - i) % 2 == 0
    && Furthest(g, k, i, x)
    && FurthestBack(g, k, j, y)
    && Column(g, k, y) <= x
  }

  /** Frontiers that overlap witness a path of i + j edits, even if they have left the box. */
  lemma OverlapBoundsDistance(g: Grid, k: int, i: nat, j: nat, x: int, y: int)
    requires Valid(g) && Overlap(g, k, i, j, x, y)
    ensures Distance(g) <= i + j
  {
    ParityAndBounds(g, g.x2, g.y2);
    if -(g.y2 - g.y1) <= k <= g.x2 - g.x1 {
      // The diagonal crosses the box, and a crossing point lies between the two ends.
      var px := Column(g, k, y);
      var qx := if px < g.x1 then g.x1 else px;
      if Row(g, k, qx) < g.y1 { qx := Column(g, k, g.y1); }
      var qy := Row(g, k, qx);
      FurthestIsLast(g, k, i, x, qx);
      FurthestBackIsFirst(g, k, j, y, qy);
      Triangle(g, qx, qy);
    }
  }

  /** Where a diagonal leaves the box, a shortest path cannot step out. */
  lemma NoWayOut(g: Grid, x: int, y: int)
    requires Inside(g, x, y) && (x == g.x2 || y == g.y2)
    requires From(g, x, y) + To(g, x, y) == Distance(g)
    ensures From(g, x, y) < From(g, x + 1, y + 1)
  {
    LeavingCosts(g, x, y);
    Neighbours(g, x, y);
    if x < g.x2 {
      assert To(g, x, y) == g.x2 - x;
      Triangle(g, x + 1, y);
    } else if y < g.y2 {
      assert To(g, x, y) == g.y2 - y;
      Triangle(g, x, y + 1);
    }
  }

  /** A forward end on a shortest path has not left the box. */
  lemma ForwardEndInside(g: Grid, k: int, i: nat, j: nat, x: int, y: int)
    requires Valid(g) && Overlap(g, k, i, j, x, y) && Distance(g) == i + j
    ensures Inside(g, x, Row(g, k, x))
  {
    hide From, To;
    ParityAndBounds(g, x, Row(g, k, x));
    ParityAndBounds(g, g.x2, g.y2);
    if x > g.x2 || Row(g, k, x) > g.y2 {
      // Go back along the diagonal to where it leaves the box.
      var qx := Min(g.x2, Column(g, k, g.y2));
      var qy := Row(g, k, qx);
      FurthestIsLast(g, k, i, x, qx);
      FurthestIsLast(g, k, i, x, qx + 1);
      FurthestBackIsFirst(g, k, j, y, qy);
      Triangle(g, qx, qy);
      MonotoneAlongDiagonal(g, qx, qy, 1);
      NoWayOut(g, qx, qy);
      assert false;
    }
  }

  /** Seen from the far corner, an overlap is an overlap. */
  lemma FlipOverlap(g: Grid, k: int, i: nat, j: nat, x: int, y: int)
    requires Valid(g) && Overlap(g, k, i, j, x, y) && Distance(g) == i + j
    ensures Overlap(Flip(g), k - Delta(g), j, i, -y, -x)
    ensures Distance(Flip(g)) == i + j
  {
    hide From, To, Furthest, FurthestBack;
    DistanceFromEitherSide(g);
    FlipFurthest(g, k, j, y);
    FlipFurthestBack(g, k, i, x);
    ParityAndBounds(g, g.x2, g.y2);
  }

  /** The same for the backward end. */
  lemma BackwardEndInside(g: Grid, k: int, i: nat, j: nat, x: int, y: int)
    requires Valid(g) && Overlap(g, k, i, j, x, y) && Distance(g) == i + j
    ensures Inside(g, Column(g, k, y), y)
  {
    FlipOverlap(g, k, i, j, x, y);
    ForwardEndInside(Flip(g), k - Delta(g), j, i, -y, -x);
  }

  /** Every point between the two ends lies on a shortest path, i edits from
      the near corner and j from the far one. */
  lemma SegmentOnShortestPath(g: Grid, k: int, i: nat, j: nat, x: int, y: int, px: int)
    requires Valid(g) && Overlap(g, k, i, j, x, y) && Distance(g) == i + j
    requires Column(g, k, y) <= px <= x
    ensures Inside(g, px, Row(g, k, px))
    ensures From(g, px, Row(g, k, px)) == i && To(g, px, Row(g, k, px)) == j
  {
    ForwardEndInside(g, k, i, j, x, y);
    BackwardEndInside(g, k, i, j, x, y);
    var py := Row(g, k, px);
    FurthestIsLast(g, k, i, x, px);
    FurthestBackIsFirst(g, k, j, y, py);
    Triangle(g, px, py);
  }

  /** If the distance is i + j, the two frontiers do overlap somewhere. */
  lemma MustMeet(g: Grid, i: nat, j: nat) returns (k: int)
    requires Valid(g) && Distance(g) == i + j
    ensures Abs(k) <= i && Abs(k - Delta(g)) <= j && (k - i) % 2 == 0
    ensures forall x, y :: Furthest(g, k, i, x) && FurthestBack(g, k, j, y) ==> Overlap(g, k, i, j, x, y)
  {
    hide From, To, Furthest, FurthestBack, Distance;
    var px, py := SplitPoint(g, i);
    FlipCorners(g);
    k := (px - g.x1) - (py - g.y1);
    ParityAndBounds(g, px, py);
    FlipTo(g, px, py);
    ParityAndBounds(Flip(g), -py, -px);
    forall x, y | Furthest(g, k, i, x) && FurthestBack(g, k, j, y)
      ensures Overlap(g, k, i, j, x, y)
    {
      FurthestIsLast(g, k, i, x, px);
      FurthestBackIsFirst(g, k, j, y, py);
    }
  }
}
