/** The edit grid of two compared sequences.

A grid point (x, y) stands for "the first x elements of a and the first y
elements of b are dealt with".  A step right deletes a[x], a step down adds
b[y], and where the two elements compare equal a free diagonal step keeps both.
The search in logger/diff.c works in the part of the grid cut out by a box, but
its frontiers may run past the far sides of the box; there are no free steps
out there. */
module EditGrid {

  /** A box of the grid together with the outcome of the comparison callback. */
  datatype Grid = Grid(x1: int, y1: int, x2: int, y2: int, same: (int, int) -> bool)

  ghost predicate Valid(g: Grid) {
    g.x1 <= g.x2 && g.y1 <= g.y2
  }

  function Delta(g: Grid): int {
    (g.x2 - g.x1) - (g.y2 - g.y1)
  }

  function Min(a: int, b: int): int {
    if a <= b then a else b
  }

  function Abs(a: int): nat {
    if a < 0 then -a else a
  }

  /** A free diagonal step starts at (x, y). */
  predicate Match(g: Grid, x: int, y: int) {
    g.x1 <= x < g.x2 && g.y1 <= y < g.y2 && g.same(x, y)
  }

  ghost predicate Inside(g: Grid, x: int, y: int) {
    g.x1 <= x <= g.x2 && g.y1 <= y <= g.y2
  }

  /** Fewest edits on the way from the near corner (x1, y1) to (x, y). */
  ghost function From(g: Grid, x: int, y: int): nat
    requires g.x1 <= x && g.y1 <= y
    decreases (x - g.x1) + (y - g.y1)
  {
    if x == g.x1 then y - g.y1
    else if y == g.y1 then x - g.x1
    else if Match(g, x - 1, y - 1) then From(g, x - 1, y - 1)
    else 1 + Min(From(g, x - 1, y), From(g, x, y - 1))
  }

  /** Fewest edits on the way from (x, y) to the far corner (x2, y2). */
  ghost function To(g: Grid, x: int, y: int): nat
    requires x <= g.x2 && y <= g.y2
    decreases (g.x2 - x) + (g.y2 - y)
  {
    if y == g.y2 then g.x2 - x
    else if x == g.x2 then g.y2 - y
    else if Match(g, x, y) then To(g, x + 1, y + 1)
    else 1 + Min(To(g, x, y + 1), To(g, x + 1, y))
  }

  lemma FromUnfolds(g: Grid, x: int, y: int)
    requires g.x1 < x && g.y1 < y
    ensures From(g, x, y) ==
              if Match(g, x - 1, y - 1) then From(g, x - 1, y - 1) else 1 + Min(From(g, x - 1, y), From(g, x, y - 1))
  {
  }

  lemma ToUnfolds(g: Grid, x: int, y: int)
    requires x < g.x2 && y < g.y2
    ensures To(g, x, y) == if Match(g, x, y) then To(g, x + 1, y + 1) else 1 + Min(To(g, x, y + 1), To(g, x + 1, y))
  {
  }

  /** The edit distance across the whole box. */
  ghost function Distance(g: Grid): nat
    requires Valid(g)
  {
    From(g, g.x2, g.y2)
  }

  /** One edit changes the distance by exactly one, a diagonal step by 0 or 2. */
  lemma {:induction false} Neighbours(g: Grid, x: int, y: int)
    requires g.x1 <= x && g.y1 <= y
    ensures Abs(From(g, x + 1, y) - From(g, x, y)) == 1
    ensures Abs(From(g, x, y + 1) - From(g, x, y)) == 1
    ensures From(g, x + 1, y + 1) == From(g, x, y) || From(g, x + 1, y + 1) == From(g, x, y) + 2
    decreases (x - g.x1) + (y - g.y1)
  {
    if y > g.y1 { Neighbours(g, x, y - 1); }
    if x > g.x1 { Neighbours(g, x - 1, y); }
  }

  lemma FromEdge(g: Grid, x: int, y: int)
    requires g.x1 <= x && g.y1 <= y && (x == g.x1 || y == g.y1)
    ensures From(g, x, y) == (x - g.x1) + (y - g.y1)
  {
  }

  /** The distance has the parity of the diagonal and is at least its number. */
  lemma {:induction false} ParityAndBounds(g: Grid, x: int, y: int)
    requires g.x1 <= x && g.y1 <= y
    ensures (From(g, x, y) - ((x - g.x1) - (y - g.y1))) % 2 == 0
    ensures Abs((x - g.x1) - (y - g.y1)) <= From(g, x, y) <= (x - g.x1) + (y - g.y1)
    decreases (x - g.x1) + (y - g.y1)
  {
    hide From, Match;
    var k, d := (x - g.x1) - (y - g.y1), From(g, x, y);
    if x == g.x1 || y == g.y1 {
      FromEdge(g, x, y);
      EdgeParity(x - g.x1, y - g.y1);
    } else {
      FromUnfolds(g, x, y);
      ParityAndBounds(g, x - 1, y - 1);
      ParityAndBounds(g, x - 1, y);
      ParityAndBounds(g, x, y - 1);
      if d == 1 + From(g, x - 1, y) {
        SameParity(d, k, From(g, x - 1, y), k - 1);
      } else if d == 1 + From(g, x, y - 1) {
        SameParity(d, k, From(g, x, y - 1), k + 1);
      }
    }
  }

  lemma EdgeParity(n: nat, m: nat)
    requires n == 0 || m == 0
    ensures (n + m - (n - m)) % 2 == 0 && Abs(n - m) == n + m
  {
    assert n + m - (n - m) == 2 * m;
  }

  lemma SameParity(d: int, k: int, e: int, l: int)
    requires (e - l) % 2 == 0 && d == e + 1 && Abs(k - l) == 1
    ensures (d - k) % 2 == 0
  {
    assert d - k == e - l || d - k == e - l + 2;
  }

  /** The distance never decreases along a diagonal. */
  lemma {:induction false} MonotoneAlongDiagonal(g: Grid, x: int, y: int, t: nat)
    requires g.x1 <= x && g.y1 <= y
    ensures From(g, x, y) <= From(g, x + t, y + t)
    decreases t
  {
    if t > 0 {
      MonotoneAlongDiagonal(g, x, y, t - 1);
      Neighbours(g, x + t - 1, y + t - 1);
    }
  }

  /** A free step costs nothing, whichever way round it is looked at. */
  lemma MatchIsFree(g: Grid, x: int, y: int)
    requires Match(g, x, y)
    ensures From(g, x + 1, y + 1) == From(g, x, y)
    ensures To(g, x, y) == To(g, x + 1, y + 1)
  {
  }

  /** Leaving the box through its right or lower side is never free. */
  lemma {:induction false} LeavingCosts(g: Grid, x: int, y: int)
    requires g.x1 <= x && g.y1 <= y
    ensures x >= g.x2 ==> From(g, x + 1, y) == From(g, x, y) + 1
    ensures y >= g.y2 ==> From(g, x, y + 1) == From(g, x, y) + 1
    decreases (x - g.x1) + (y - g.y1)
  {
    hide From;
    if x >= g.x2 {
      if y == g.y1 {
        FromEdge(g, x, y);
        FromEdge(g, x + 1, y);
      } else {
        LeavingCosts(g, x, y - 1);
        Neighbours(g, x, y - 1);
        FromUnfolds(g, x + 1, y);
      }
    }
    if y >= g.y2 {
      if x == g.x1 {
        FromEdge(g, x, y);
        FromEdge(g, x, y + 1);
      } else {
        LeavingCosts(g, x - 1, y);
        Neighbours(g, x - 1, y);
        FromUnfolds(g, x, y + 1);
      }
    }
  }

  // ----- Looking at the grid from the far corner

  /** The grid seen from its far corner, with the two sequences swapped.  The
      backward half of the search is the forward half on this grid. */
  ghost function Flip(g: Grid): Grid {
    Grid(-g.y2, -g.x2, -g.y1, -g.x1, (i: int, j: int) => g.same(-j - 1, -i - 1))
  }

  lemma FlipCorners(g: Grid)
    ensures Flip(g).x1 == -g.y2 && Flip(g).y1 == -g.x2 && Flip(g).x2 == -g.y1 && Flip(g).y2 == -g.x1
  {
  }

  lemma FlipMatch(g: Grid, x: int, y: int)
    ensures Match(Flip(g), -y - 1, -x - 1) == Match(g, x, y)
  {
  }

  lemma FlipToEdge(g: Grid, x: int, y: int)
    requires x <= g.x2 && y <= g.y2 && (x == g.x2 || y == g.y2)
    ensures To(g, x, y) == From(Flip(g), -y, -x)
  {
  }

  lemma FlipToStep(g: Grid, x: int, y: int)
    requires x < g.x2 && y < g.y2
    ensures var f := Flip(g);
            && f.x1 < -y && f.y1 < -x
            && From(f, -y, -x) ==
                 if Match(g, x, y) then From(f, -y - 1, -x - 1) else 1 + Min(From(f, -y - 1, -x), From(f, -y, -x - 1))
  {
    FlipMatch(g, x, y);
    FromUnfolds(Flip(g), -y, -x);
    hide From, Match;
  }

  lemma {:induction false} FlipTo(g: Grid, x: int, y: int)
    requires x <= g.x2 && y <= g.y2
    ensures To(g, x, y) == From(Flip(g), -y, -x)
    decreases (g.x2 - x) + (g.y2 - y)
  {
    hide From, To, Match, Flip;
    if x == g.x2 || y == g.y2 {
      FlipToEdge(g, x, y);
    } else {
      ToUnfolds(g, x, y);
      FlipToStep(g, x, y);
      FlipTo(g, x + 1, y + 1);
      FlipTo(g, x, y + 1);
      FlipTo(g, x + 1, y);
    }
  }

  lemma FlipFromEdge(g: Grid, x: int, y: int)
    requires g.x1 <= x && g.y1 <= y && (x == g.x1 || y == g.y1)
    ensures From(g, x, y) == To(Flip(g), -y, -x)
  {
  }

  lemma FlipFromStep(g: Grid, x: int, y: int)
    requires g.x1 < x && g.y1 < y
    ensures var f := Flip(g);
            && -y < f.x2 && -x < f.y2
            && To(f, -y, -x) ==
                 if Match(g, x - 1, y - 1) then To(f, -y + 1, -x + 1) else 1 + Min(To(f, -y, -x + 1), To(f, -y + 1, -x))
  {
    FlipMatch(g, x - 1, y - 1);
    ToUnfolds(Flip(g), -y, -x);
    hide To, Match;
  }

  lemma {:induction false} FlipFrom(g: Grid, x: int, y: int)
    requires g.x1 <= x && g.y1 <= y
    ensures From(g, x, y) == To(Flip(g), -y, -x)
    decreases (x - g.x1) + (y - g.y1)
  {
    hide From, To, Match, Flip;
    if x == g.x1 || y == g.y1 {
      FlipFromEdge(g, x, y);
    } else {
      FromUnfolds(g, x, y);
      FlipFromStep(g, x, y);
      FlipFrom(g, x - 1, y - 1);
      FlipFrom(g, x, y - 1);
      FlipFrom(g, x - 1, y);
    }
  }

  lemma NeighboursTo(g: Grid, x: int, y: int)
    requires x <= g.x2 && y <= g.y2
    ensures Abs(To(g, x - 1, y) - To(g, x, y)) == 1
    ensures Abs(To(g, x, y - 1) - To(g, x, y)) == 1
  {
    hide *;
    FlipCorners(g);
    Neighbours(Flip(g), -y, -x);
    FlipTo(g, x, y);
    FlipTo(g, x - 1, y);
    FlipTo(g, x, y - 1);
  }

  // ----- Paths through the box

  /** Going through a point inside the box is never shorter than the best path. */
  lemma {:induction false} Triangle(g: Grid, x: int, y: int)
    requires Inside(g, x, y)
    ensures Distance(g) <= From(g, x, y) + To(g, x, y)
    decreases (g.x2 - x) + (g.y2 - y)
  {
    Neighbours(g, x, y);
    if x < g.x2 { Triangle(g, x + 1, y); }
    if y < g.y2 { Triangle(g, x, y + 1); }
    if x < g.x2 && y < g.y2 { Triangle(g, x + 1, y + 1); }
  }

  /** Both corners see the same distance. */
  lemma DistanceFromEitherSide(g: Grid)
    requires Valid(g)
    ensures Distance(g) == To(g, g.x1, g.y1) == Distance(Flip(g))
  {
    Triangle(g, g.x1, g.y1);
    FlipTo(g, g.x1, g.y1);
    var h := Flip(g);
    Triangle(h, h.x1, h.y1);
    FlipFrom(g, g.x2, g.y2);
  }

  lemma FarCorner(g: Grid)
    requires Valid(g)
    ensures From(g, g.x2, g.y2) == Distance(g) && To(g, g.x2, g.y2) == 0
  {
  }

  /** Where no free step arrives, one of the two neighbours is an edit nearer. */
  lemma Predecessor(g: Grid, x: int, y: int)
    requires Inside(g, x, y) && From(g, x, y) > 0 && !(x > g.x1 && y > g.y1 && Match(g, x - 1, y - 1))
    ensures if y == g.y1 || (x > g.x1 && From(g, x - 1, y) < From(g, x, y))
            then x > g.x1 && From(g, x - 1, y) == From(g, x, y) - 1
            else y > g.y1 && From(g, x, y - 1) == From(g, x, y) - 1
  {
    if x > g.x1 && y > g.y1 {
      FromUnfolds(g, x, y);
      Neighbours(g, x - 1, y);
      hide From, Match;
    }
  }

  /** One step costs at most one edit. */
  lemma ToRises(g: Grid, x: int, y: int)
    requires x <= g.x2 && y <= g.y2
    ensures x < g.x2 ==> To(g, x, y) <= To(g, x + 1, y) + 1
    ensures y < g.y2 ==> To(g, x, y) <= To(g, x, y + 1) + 1
  {
    if x < g.x2 { NeighboursTo(g, x + 1, y); }
    if y < g.y2 { NeighboursTo(g, x, y + 1); }
  }

  /** Some shortest path spends its first i edits up to a point inside the box. */
  lemma {:induction false} SplitPoint(g: Grid, i: nat) returns (x: int, y: int)
    requires Valid(g) && i <= Distance(g)
    ensures Inside(g, x, y) && From(g, x, y) == i && To(g, x, y) == Distance(g) - i
  {
    hide From, To, Distance, Match, Abs;
    x, y := g.x2, g.y2;
    FarCorner(g);
    while From(g, x, y) != i
      invariant Inside(g, x, y)
      invariant i <= From(g, x, y) && From(g, x, y) + To(g, x, y) == Distance(g)
      decreases (x - g.x1) + (y - g.y1)
    {
      if x > g.x1 && y > g.y1 && Match(g, x - 1, y - 1) {
        MatchIsFree(g, x - 1, y - 1);
        x, y := x - 1, y - 1;
      } else if y == g.y1 || (x > g.x1 && From(g, x - 1, y) < From(g, x, y)) {
        Predecessor(g, x, y);
        ToRises(g, x - 1, y);
        Triangle(g, x - 1, y);
        x := x - 1;
      } else {
        Predecessor(g, x, y);
        ToRises(g, x, y - 1);
        Triangle(g, x, y - 1);
        y := y - 1;
      }
    }
  }

  // ----- Changing the box

  /** Two grids that agree on their free steps have the same distances. */
  lemma {:induction false} FromLocal(g: Grid, h: Grid, x: int, y: int)
    requires g.x1 == h.x1 && g.y1 == h.y1 && g.x1 <= x && g.y1 <= y
    requires forall i, j :: i < x && j < y ==> Match(g, i, j) == Match(h, i, j)
    ensures From(g, x, y) == From(h, x, y)
    decreases (x - g.x1) + (y - g.y1)
  {
    if x > g.x1 && y > g.y1 {
      FromLocal(g, h, x - 1, y - 1);
      FromLocal(g, h, x - 1, y);
      FromLocal(g, h, x, y - 1);
    }
  }

  lemma {:induction false} ToLocal(g: Grid, h: Grid, x: int, y: int)
    requires g.x2 == h.x2 && g.y2 == h.y2 && x <= g.x2 && y <= g.y2
    requires forall i, j :: x <= i && y <= j ==> Match(g, i, j) == Match(h, i, j)
    ensures To(g, x, y) == To(h, x, y)
    decreases (g.x2 - x) + (g.y2 - y)
  {
    if x < g.x2 && y < g.y2 {
      ToLocal(g, h, x + 1, y + 1);
      ToLocal(g, h, x + 1, y);
      ToLocal(g, h, x, y + 1);
    }
  }

  /** The part of a grid between two points. */
  function Sub(g: Grid, x1: int, y1: int, x2: int, y2: int): Grid {
    Grid(x1, y1, x2, y2, g.same)
  }

  /** Cutting the box short at an inside point leaves the distance to that point. */
  lemma CutEnd(g: Grid, x: int, y: int)
    requires Inside(g, x, y)
    ensures Distance(Sub(g, g.x1, g.y1, x, y)) == From(g, x, y)
  {
    FromLocal(g, Sub(g, g.x1, g.y1, x, y), x, y);
  }

  /** Starting the box at an inside point leaves the distance from that point. */
  lemma CutStart(g: Grid, x: int, y: int)
    requires Inside(g, x, y)
    ensures Distance(Sub(g, x, y, g.x2, g.y2)) == To(g, x, y)
  {
    var h := Sub(g, x, y, g.x2, g.y2);
    ToLocal(g, h, x, y);
    DistanceFromEitherSide(h);
  }
}
