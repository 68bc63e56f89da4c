/** The two frontiers of logger/diff.c and the middle segment they agree on. */
module Middle {
  import opened EditGrid
  import opened Frontier

  /** What the search reports: two points of one diagonal and a number of edits. */
  datatype Segment = Segment(x1: int, y1: int, x2: int, y2: int, d: int)

  /** The box the C code hands around by pointer and overwrites with its answer. */
  class Box {
    var x1: int
    var x2: int
    var y1: int
    var y2: int
    var d: int

    constructor (x1: int, y1: int, x2: int, y2: int)
      ensures this.x1 == x1 && this.y1 == y1 && this.x2 == x2 && this.y2 == y2
    {
      this.x1, this.y1, this.x2, this.y2, this.d := x1, y1, x2, y2, 0;
    }

    /** The box as the region to search. */
    ghost function Region(same: (int, int) -> bool): Grid
      reads this
    {
      Grid(x1, y1, x2, y2, same)
    }

    /** The box as the answer of a search. */
    ghost function Answer(): Segment
      reads this
    {
      Segment(x1, y1, x2, y2, d)
    }

    method Fill(x1: int, y1: int, x2: int, y2: int, d: int)
      modifies this
      ensures Answer() == Segment(x1, y1, x2, y2, d)
    {
      this.x1, this.y1, this.x2, this.y2, this.d := x1, y1, x2, y2, d;
    }
  }

  // ----- What the search is to find

  ghost predicate Meets(g: Grid, k: int, i: int, j: int) {
    exists x, y :: Overlap(g, k, i, j, x, y)
  }

  ghost predicate NoMeetingAbove(g: Grid, k: int, i: int, j: int) {
    forall k' :: k < k' ==> !Meets(g, k', i, j)
  }

  /** The segment of the highest diagonal on which the frontiers overlap when
      the forward one has spent half the edits, rounded up, and the backward
      one the rest. */
  ghost predicate IsMiddle(g: Grid, s: Segment)
    requires Valid(g)
  {
    var i, j, k := (s.d + 1) / 2, s.d / 2, (s.x2 - g.x1) - (s.y2 - g.y1);
    && s.d == Distance(g)
    && Overlap(g, k, i, j, s.x2, s.y1)
    && s.x1 == Column(g, k, s.y1)
    && NoMeetingAbove(g, k, i, j)
  }

  /** On one diagonal at most one pair of ends can overlap. */
  lemma OverlapIsUnique(g: Grid, k: int, i: int, j: int, x: int, y: int, x': int, y': int)
    requires Furthest(g, k, i, x) && FurthestBack(g, k, j, y)
    requires Furthest(g, k, i, x') && FurthestBack(g, k, j, y')
    ensures x == x' && y == y'
  {
    FurthestIsLast(g, k, i, x, x');
    FurthestIsLast(g, k, i, x', x);
    FurthestBackIsFirst(g, k, j, y, y');
    FurthestBackIsFirst(g, k, j, y', y);
  }

  lemma MiddleIsUnique(g: Grid, s: Segment, t: Segment)
    requires Valid(g) && IsMiddle(g, s) && IsMiddle(g, t)
    ensures s == t
  {
    hide Furthest, FurthestBack, From, To, Distance, Column;
    var i, j := (s.d + 1) / 2, s.d / 2;
    var k, l := (s.x2 - g.x1) - (s.y2 - g.y1), (t.x2 - g.x1) - (t.y2 - g.y1);
    assert Meets(g, k, i, j) && Meets(g, l, i, j);
    OverlapIsUnique(g, k, i, j, s.x2, s.y1, t.x2, t.y1);
  }

  /** The reported segment lies inside the box, on a shortest path in every
      point, and cuts the distance in two halves. */
  lemma MiddleOnShortestPath(g: Grid, s: Segment, t: int)
    requires Valid(g) && IsMiddle(g, s) && 0 <= t <= s.x2 - s.x1
    ensures s.x1 <= s.x2 && s.x2 - s.x1 == s.y2 - s.y1
    ensures Inside(g, s.x1 + t, s.y1 + t)
    ensures From(g, s.x1 + t, s.y1 + t) == (s.d + 1) / 2
    ensures To(g, s.x1 + t, s.y1 + t) == s.d / 2
  {
    var k := (s.x2 - g.x1) - (s.y2 - g.y1);
    SegmentOnShortestPath(g, k, (s.d + 1) / 2, s.d / 2, s.x2, s.y1, s.x1 + t);
  }

  // ----- Contents of the two arrays

  /** Diagonal k gets a value in round d. */
  ghost predicate OnRow(k: int, d: int) {
    Abs(k) <= d && (k - d) % 2 == 0
  }

  /** The diagonals of round d from lo upwards hold their furthest column. */
  ghost predicate Filled(g: Grid, f: seq<int>, dMax: int, d: int, lo: int)
    requires d <= dMax && |f| == 2 * dMax + 1
  {
    forall k {:trigger OnRow(k, d)} :: lo <= k && OnRow(k, d) ==> Furthest(g, k, d, f[k + dMax])
  }

  ghost predicate FilledBack(g: Grid, f: seq<int>, dMax: int, d: int, lo: int)
    requires d <= dMax && |f| == 2 * dMax + 1
  {
    forall c {:trigger OnRow(c, d)} :: lo <= c && OnRow(c, d) ==> FurthestBack(g, c + Delta(g), d, f[c + dMax])
  }

  /** What a round finds in the arrays: the round before it, or the seed. */
  ghost predicate Ready(g: Grid, f: seq<int>, dMax: int, d: int)
    requires 0 <= d <= dMax && |f| == 2 * dMax + 1
  {
    if d == 0 then dMax > 0 && f[1 + dMax] == g.x1 else Filled(g, f, dMax, d - 1, -d)
  }

  ghost predicate ReadyBack(g: Grid, f: seq<int>, dMax: int, d: int)
    requires 0 <= d <= dMax && |f| == 2 * dMax + 1
  {
    if d == 0 then dMax > 0 && f[1 + dMax] == g.y2 else FilledBack(g, f, dMax, d - 1, -d)
  }

  lemma ReadyFirst(g: Grid, f: seq<int>, b: seq<int>, dMax: int)
    requires dMax > 0 && |f| == |b| == 2 * dMax + 1 && f[1 + dMax] == g.x1 && b[1 + dMax] == g.y2
    ensures Ready(g, f, dMax, 0) && ReadyBack(g, b, dMax, 0)
  {
  }

  lemma ReadyNext(g: Grid, f: seq<int>, b: seq<int>, dMax: int, d: int)
    requires 0 < d <= dMax && |f| == |b| == 2 * dMax + 1
    requires Filled(g, f, dMax, d - 1, -(d - 1)) && FilledBack(g, b, dMax, d - 1, -(d - 1))
    ensures Ready(g, f, dMax, d) && ReadyBack(g, b, dMax, d)
  {
    hide Furthest, FurthestBack;
  }

  lemma DistanceBounds(g: Grid)
    requires Valid(g)
    ensures 0 <= Distance(g) <= (g.x2 - g.x1) + (g.y2 - g.y1)
  {
    ParityAndBounds(g, g.x2, g.y2);
  }

  lemma ReadyPrepares(g: Grid, f: seq<int>, dMax: int, d: int, k: int)
    requires 0 <= d <= dMax && |f| == 2 * dMax + 1 && Ready(g, f, dMax, d) && OnRow(k, d)
    ensures k < d || d == 0 ==> 0 <= k + dMax + 1 < |f|
    ensures k > -d ==> 0 <= k + dMax - 1 < |f|
    ensures Prepared(g, k, d, if k > -d then f[k + dMax - 1] else 0, if k < d || d == 0 then f[k + dMax + 1] else 0)
  {
    assert k > -d ==> OnRow(k - 1, d - 1);
    assert k < d ==> OnRow(k + 1, d - 1);
  }

  lemma ReadyBackPrepares(g: Grid, f: seq<int>, dMax: int, d: int, c: int)
    requires 0 <= d <= dMax && |f| == 2 * dMax + 1 && ReadyBack(g, f, dMax, d) && OnRow(c, d)
    ensures c < d || d == 0 ==> 0 <= c + dMax + 1 < |f|
    ensures c > -d ==> 0 <= c + dMax - 1 < |f|
    ensures -d <= c <= d
    ensures var left, right := if c > -d then -f[c + dMax - 1] else 0, if c < d || d == 0 then -f[c + dMax + 1] else 0;
            Prepared(Flip(g), c, d, left, right)
  {
    hide Furthest, FurthestBack, Flip;
    assert c > -d ==> OnRow(c - 1, d - 1);
    assert c < d ==> OnRow(c + 1, d - 1);
    FlipCorners(g);
    if c > -d { FlipFurthest(g, c - 1 + Delta(g), d - 1, f[c + dMax - 1]); }
    if c < d { FlipFurthest(g, c + 1 + Delta(g), d - 1, f[c + dMax + 1]); }
  }

  // ----- Meeting or not

  /** Storing a cell completes its round by one and leaves the round before alone. */
  lemma StoreKeeps(g: Grid, f: seq<int>, dMax: int, d: int, k: int, x: int)
    requires 0 <= d <= dMax && |f| == 2 * dMax + 1 && OnRow(k, d)
    requires Ready(g, f, dMax, d) && Filled(g, f, dMax, d, k + 1) && Furthest(g, k, d, x)
    ensures Ready(g, f[k + dMax := x], dMax, d) && Filled(g, f[k + dMax := x], dMax, d, k - 1)
    ensures k - 2 >= -d ==> OnRow(k - 2, d)
  {
    hide Furthest;
  }

  lemma StoreBackKeeps(g: Grid, f: seq<int>, dMax: int, d: int, c: int, y: int)
    requires 0 <= d <= dMax && |f| == 2 * dMax + 1 && OnRow(c, d)
    requires ReadyBack(g, f, dMax, d) && FilledBack(g, f, dMax, d, c + 1) && FurthestBack(g, c + Delta(g), d, y)
    ensures ReadyBack(g, f[c + dMax := y], dMax, d) && FilledBack(g, f[c + dMax := y], dMax, d, c - 1)
    ensures c - 2 >= -d ==> OnRow(c - 2, d)
  {
    hide FurthestBack;
  }

  lemma Misses(g: Grid, k: int, i: int, j: int, x: int, y: int)
    requires Furthest(g, k, i, x) && FurthestBack(g, k, j, y) && x < Column(g, k, y)
    ensures !Meets(g, k, i, j)
  {
    if Meets(g, k, i, j) {
      var x', y' :| Overlap(g, k, i, j, x', y');
      OverlapIsUnique(g, k, i, j, x, y, x', y');
    }
  }

  /** Complete frontiers of i and j edits do overlap if the distance is i + j. */
  lemma PathMakesThemMeet(g: Grid, f: seq<int>, b: seq<int>, dMax: int, i: int, j: int)
    requires Valid(g) && 0 <= j <= i <= dMax && |f| == |b| == 2 * dMax + 1
    requires Filled(g, f, dMax, i, -i) && FilledBack(g, b, dMax, j, -j)
    ensures Distance(g) == i + j ==> exists k :: -i <= k && Meets(g, k, i, j)
  {
    if Distance(g) == i + j {
      var k := MustMeet(g, i, j);
      ParityAndBounds(g, g.x2, g.y2);
      assert OnRow(k, i) && OnRow(k - Delta(g), j);
      assert Overlap(g, k, i, j, f[k + dMax], b[k - Delta(g) + dMax]);
      assert Meets(g, k, i, j);
    }
  }

  /** The C expression n & 1, on either sign. */
  predicate Odd(n: int) {
    n % 2 == 1
  }

  /** The rounds i and j write matching diagonals if i + j has the parity of delta. */
  lemma OppositeRow(k: int, delta: int, i: int, j: int)
    requires OnRow(k, i) && Abs(k - delta) <= j && Odd(delta) == Odd(i + j)
    ensures OnRow(k - delta, j)
  {
  }

  lemma OddRow(k: int, delta: int, d: int)
    requires OnRow(k, d) && Abs(k - delta) <= d - 1 && Odd(delta)
    ensures OnRow(k - delta, d - 1)
  {
  }

  lemma OddDiagonal(g: Grid, k: int, i: int, j: int)
    requires OnRow(k + 1, i)
    ensures !Meets(g, k, i, j)
  {
  }

  lemma Hits(g: Grid, k: int, i: int, j: int, x: int, y: int)
    requires Valid(g) && 0 <= j <= i <= j + 1 && i + j <= Distance(g)
    requires Overlap(g, k, i, j, x, y) && NoMeetingAbove(g, k, i, j)
    ensures IsMiddle(g, Segment(Column(g, k, y), y, x, Row(g, k, x), i + j))
  {
    OverlapBoundsDistance(g, k, i, j, x, y);
    assert (i + j + 1) / 2 == i && (i + j) / 2 == j;
  }

  lemma EvenRow(c: int, delta: int, d: int)
    requires OnRow(c, d) && Abs(c + delta) <= d && !Odd(delta)
    ensures OnRow(c + delta, d)
  {
  }

  /** What the cells of a finished row hold. */
  lemma StoredBack(g: Grid, b: seq<int>, dMax: int, d: int, c: int)
    requires 0 <= d <= dMax && |b| == 2 * dMax + 1 && ReadyBack(g, b, dMax, d) && OnRow(c, d - 1)
    ensures 0 <= c + dMax < |b| && FurthestBack(g, c + Delta(g), d - 1, b[c + dMax])
  {
    hide FurthestBack;
  }

  lemma StoredForward(g: Grid, f: seq<int>, dMax: int, d: int, k: int)
    requires 0 <= d <= dMax && |f| == 2 * dMax + 1 && Filled(g, f, dMax, d, -d) && OnRow(k, d)
    ensures 0 <= k + dMax < |f| && Furthest(g, k, d, f[k + dMax])
  {
    hide Furthest;
  }

  lemma Meeting(g: Grid, k: int, i: int, j: int, x: int, y: int)
    requires OnRow(k, i) && Abs(k - Delta(g)) <= j
    requires Furthest(g, k, i, x) && FurthestBack(g, k, j, y) && Column(g, k, y) <= x
    ensures Overlap(g, k, i, j, x, y)
  {
    hide Furthest, FurthestBack, Column;
  }

  lemma MeetingBack(g: Grid, c: int, d: int, x: int, y: int)
    requires var k := c + Delta(g);
             && OnRow(k, d) && OnRow(c, d)
             && Furthest(g, k, d, x) && FurthestBack(g, k, d, y) && Column(g, k, y) <= x
    ensures Overlap(g, c + Delta(g), d, d, x, y)
  {
    hide Furthest, FurthestBack, Column;
  }

  lemma OffTheRow(g: Grid, k: int, i: int, j: int)
    requires Abs(k) > i || Abs(k - Delta(g)) > j
    ensures !Meets(g, k, i, j)
  {
    hide Furthest, FurthestBack, Column;
  }

  lemma TwoFurther(g: Grid, k: int, i: int, j: int)
    requires NoMeetingAbove(g, k, i, j) && !Meets(g, k, i, j) && !Meets(g, k - 1, i, j)
    ensures NoMeetingAbove(g, k - 2, i, j)
  {
    hide Meets;
  }

  /** One comparison of the two frontiers decides about diagonals k and k - 1. */
  lemma CheckDiagonal(g: Grid, b: seq<int>, dMax: int, k: int, d: int, x: int)
    requires Valid(g) && 0 <= d <= dMax && 2 * d - 1 <= Distance(g) && OnRow(k, d)
    requires |b| == 2 * dMax + 1 && ReadyBack(g, b, dMax, d) && Odd(Delta(g))
    requires NoMeetingAbove(g, k, d, d - 1)
    requires Furthest(g, k, d, x)
    ensures Abs(k - Delta(g)) <= d - 1 ==>
              var y := b[k - Delta(g) + dMax];
              if Column(g, k, y) <= x
              then IsMiddle(g, Segment(Column(g, k, y), y, x, Row(g, k, x), 2 * d - 1))
              else NoMeetingAbove(g, k - 2, d, d - 1)
    ensures Abs(k - Delta(g)) > d - 1 ==> NoMeetingAbove(g, k - 2, d, d - 1)
  {
    hide Furthest, FurthestBack, IsMiddle, Distance, ReadyBack, Meets, NoMeetingAbove, Overlap, OnRow, Column, Row;
    OddDiagonal(g, k - 1, d, d - 1);
    if Abs(k - Delta(g)) <= d - 1 {
      OppositeRow(k, Delta(g), d, d - 1);
      StoredBack(g, b, dMax, d, k - Delta(g));
      var y := b[k - Delta(g) + dMax];
      if Column(g, k, y) <= x {
        Meeting(g, k, d, d - 1, x, y);
        Hits(g, k, d, d - 1, x, y);
      } else {
        Misses(g, k, d, d - 1, x, y);
        TwoFurther(g, k, d, d - 1);
      }
    } else {
      OffTheRow(g, k, d, d - 1);
      TwoFurther(g, k, d, d - 1);
    }
  }

  /** The same comparison, made from the backward side. */
  lemma CheckDiagonalBack(g: Grid, f: seq<int>, dMax: int, c: int, d: int, y: int)
    requires Valid(g) && 0 <= d <= dMax && 2 * d <= Distance(g) && OnRow(c, d)
    requires |f| == 2 * dMax + 1 && Filled(g, f, dMax, d, -d) && !Odd(Delta(g))
    requires NoMeetingAbove(g, c + Delta(g), d, d)
    requires FurthestBack(g, c + Delta(g), d, y)
    ensures var k := c + Delta(g);
            Abs(k) <= d ==>
              var x := f[k + dMax];
              if Column(g, k, y) <= x
              then IsMiddle(g, Segment(Column(g, k, y), y, x, Row(g, k, x), 2 * d))
              else NoMeetingAbove(g, k - 2, d, d)
    ensures Abs(c + Delta(g)) > d ==> NoMeetingAbove(g, c + Delta(g) - 2, d, d)
  {
    hide Furthest, FurthestBack, IsMiddle, Distance, Filled, Meets, NoMeetingAbove, Overlap, OnRow, Column, Row;
    var k := c + Delta(g);
    OddDiagonalBack(g, c - 1, d);
    if Abs(k) <= d {
      EvenRow(c, Delta(g), d);
      StoredForward(g, f, dMax, d, k);
      var x := f[k + dMax];
      if Column(g, k, y) <= x {
        MeetingBack(g, c, d, x, y);
        Hits(g, k, d, d, x, y);
      } else {
        Misses(g, k, d, d, x, y);
        TwoFurther(g, k, d, d);
      }
    } else {
      OffTheRow(g, k, d, d);
      TwoFurther(g, k, d, d);
    }
  }

  lemma OddDiagonalBack(g: Grid, c: int, d: int)
    requires OnRow(c + 1, d) && !Odd(Delta(g))
    ensures !Meets(g, c + Delta(g), d, d)
  {
  }

  /** There is nothing to meet off the diagonals of either frontier. */
  lemma NoMeetingOutside(g: Grid, k: int, i: int, j: int)
    requires NoMeetingAbove(g, k, i, j) && (k < -i || k - Delta(g) < -j)
    ensures NoMeetingAbove(g, -i - 2, i, j)
  {
    forall k' | -i - 2 < k' ensures !Meets(g, k', i, j) {
    }
  }

  /** A round that met nowhere rules out the distance it would have found. */
  lemma RoundWithoutMeeting(g: Grid, f: seq<int>, b: seq<int>, dMax: int, i: int, j: int)
    requires Valid(g) && 0 <= i <= dMax && i - 1 <= j <= i && |f| == |b| == 2 * dMax + 1
    requires Filled(g, f, dMax, i, -i) && (j >= 0 ==> FilledBack(g, b, dMax, j, -j))
    requires NoMeetingAbove(g, -i - 2, i, j) && i + j <= Distance(g)
    ensures i + j < Distance(g)
  {
    if j >= 0 {
      PathMakesThemMeet(g, f, b, dMax, i, j);
    }
  }

  lemma BeforeForward(g: Grid, f: seq<int>, dMax: int, d: int)
    requires 0 <= d <= dMax && |f| == 2 * dMax + 1
    ensures OnRow(d, d) && Filled(g, f, dMax, d, d + 1) && NoMeetingAbove(g, d, d, d - 1)
  {
  }

  lemma AfterForward(g: Grid, f: seq<int>, b: seq<int>, dMax: int, d: int, k: int)
    requires Valid(g) && 0 <= d <= dMax && |f| == |b| == 2 * dMax + 1 && -d - 2 <= k < -d
    requires Filled(g, f, dMax, d, k + 1) && ReadyBack(g, b, dMax, d) && 2 * d - 1 <= Distance(g)
    requires Odd(Delta(g)) ==> NoMeetingAbove(g, k, d, d - 1)
    ensures Filled(g, f, dMax, d, -d) && 2 * d <= Distance(g)
  {
    ParityAndBounds(g, g.x2, g.y2);
    if Odd(Delta(g)) {
      NoMeetingOutside(g, k, d, d - 1);
      RoundWithoutMeeting(g, f, b, dMax, d, d - 1);
    }
  }

  lemma BeforeBackward(g: Grid, b: seq<int>, dMax: int, d: int)
    requires 0 <= d <= dMax && |b| == 2 * dMax + 1
    ensures OnRow(d, d) && FilledBack(g, b, dMax, d, d + 1) && NoMeetingAbove(g, d + Delta(g), d, d)
  {
  }

  lemma AfterBackward(g: Grid, f: seq<int>, b: seq<int>, dMax: int, d: int, c: int)
    requires Valid(g) && 0 <= d <= dMax && |f| == |b| == 2 * dMax + 1 && -d - 2 <= c < -d
    requires Filled(g, f, dMax, d, -d) && FilledBack(g, b, dMax, d, c + 1) && 2 * d <= Distance(g)
    requires !Odd(Delta(g)) ==> NoMeetingAbove(g, c + Delta(g), d, d)
    ensures FilledBack(g, b, dMax, d, -d) && 2 * d + 1 <= Distance(g)
  {
    ParityAndBounds(g, g.x2, g.y2);
    if !Odd(Delta(g)) {
      NoMeetingOutside(g, c + Delta(g), d, d);
      RoundWithoutMeeting(g, f, b, dMax, d, d);
    }
  }

  // ----- The middle segment as a function

  lemma {:induction false} BeyondTheBox(g: Grid, x: int, y: int)
    requires Valid(g) && g.y1 <= y && g.x2 <= x
    ensures From(g, x, y) >= x - g.x2
    decreases x - g.x2
  {
    if x > g.x2 {
      BeyondTheBox(g, x - 1, y);
      LeavingCosts(g, x - 1, y);
    }
  }

  /** Every diagonal within d has a furthest column. */
  lemma FurthestExists(g: Grid, k: int, d: int) returns (x: int)
    requires Valid(g) && Abs(k) <= d
    ensures Furthest(g, k, d, x)
  {
    x := if k < 0 then g.x1 else g.x1 + k;
    while From(g, x + 1, Row(g, k, x + 1)) <= d
      invariant g.x1 <= x && g.y1 <= Row(g, k, x) && From(g, x, Row(g, k, x)) <= d
      decreases g.x2 + d - x
    {
      if x >= g.x2 {
        BeyondTheBox(g, x + 1, Row(g, k, x + 1));
      }
      x := x + 1;
    }
  }

  lemma FurthestBackExists(g: Grid, k: int, d: int) returns (y: int)
    requires Valid(g) && Abs(k - Delta(g)) <= d
    ensures FurthestBack(g, k, d, y)
  {
    var x := FurthestExists(Flip(g), k - Delta(g), d);
    y := -x;
    FlipFurthest(g, k, d, y);
  }

  /** If the frontiers overlap at all, there is a highest diagonal where they do. */
  lemma HighestMeeting(g: Grid, low: int, i: int, j: int) returns (k: int, x: int, y: int)
    requires Meets(g, low, i, j)
    ensures Overlap(g, k, i, j, x, y) && NoMeetingAbove(g, k, i, j)
  {
    k := i;
    while !Meets(g, k, i, j)
      invariant low <= k && NoMeetingAbove(g, k, i, j)
      decreases k - low
    {
      k := k - 1;
    }
    x, y :| Overlap(g, k, i, j, x, y);
  }

  lemma MiddleExists(g: Grid)
    requires Valid(g)
    ensures exists s :: IsMiddle(g, s)
  {
    hide Distance, From, Furthest, FurthestBack, NoMeetingAbove;
    var i, j := (Distance(g) + 1) / 2, Distance(g) / 2;
    var k := MustMeet(g, i, j);
    var x := FurthestExists(g, k, i);
    var y := FurthestBackExists(g, k, j);
    assert Meets(g, k, i, j);
    k, x, y := HighestMeeting(g, k, i, j);
    hide Overlap;
    assert IsMiddle(g, Segment(Column(g, k, y), y, x, Row(g, k, x), Distance(g)));
  }

  /** The segment every search of the box reports. */
  ghost function MiddleOf(g: Grid): (s: Segment)
    requires Valid(g)
    ensures IsMiddle(g, s)
  {
    MiddleExists(g);
    var s :| IsMiddle(g, s);
    s
  }

  // ----- The backward cells, as the program addresses them

  /** Half the size of the box, rounded up: the last round the program allows for. */
  function LastRound(g: Grid): int {
    var max := (g.x2 - g.x1) + (g.y2 - g.y1);
    (max + max % 2) / 2
  }

  /** Cell c lies within an array of 2 * LastRound + 1 cells when it is addressed by its diagonal. */
  ghost predicate DiagonalFits(g: Grid, c: int) {
    0 <= c + Delta(g) + LastRound(g) < 2 * LastRound(g) + 1
  }

  /** The backward cell of the diagonal on which a segment lies. */
  ghost function MeetingCell(g: Grid, s: Segment): int {
    (s.x2 - g.x1) - (s.y2 - g.y1) - Delta(g)
  }

  /** The backward half of round d comes to cell c: all its cells before the
      meeting, and in the meeting round those down to the meeting itself. */
  ghost predicate Visited(g: Grid, s: Segment, d: int, c: int)
    requires Valid(g)
  {
    && OnRow(c, d)
    && (2 * d < Distance(g) || (2 * d == Distance(g) && MeetingCell(g, s) <= c))
  }

  /** Filling cell c of round d writes it and reads one neighbour or both. */
  predicate Uses(d: int, c: int, cell: int) {
    || cell == c
    || (cell == c + 1 && (c == -d || c != d))
    || (cell == c - 1 && c != -d)
  }

  /** A backward cell the program reads or writes: the seed, or one that some round uses. */
  ghost predicate Touched(g: Grid, s: Segment, cell: int)
    requires Valid(g)
  {
    cell == 1 || exists d, c :: Visited(g, s, d, c) && Uses(d, c, cell)
  }

  /** The cells of round d above c. */
  ghost predicate Above(cells: set<int>, d: int, c: int) {
    forall x :: x in cells <==> OnRow(x, d) && c < x
  }

  lemma AboveNext(cells: set<int>, d: int, c: int)
    requires Above(cells, d, c) && OnRow(c, d)
    ensures Above(cells + {c}, d, c - 1) && Above(cells + {c}, d, c - 2)
  {
  }

  /** All cells of the rounds before d. */
  ghost predicate Before(cells: set<(int, int)>, d: int) {
    forall e, c :: (e, c) in cells <==> e < d && OnRow(c, e)
  }

  /** All cells the box visits. */
  ghost predicate AllVisited(g: Grid, s: Segment, cells: set<(int, int)>)
    requires Valid(g)
  {
    forall d, c :: (d, c) in cells <==> Visited(g, s, d, c)
  }

  function InRound(d: int, row: set<int>): set<(int, int)> {
    set c | c in row :: (d, c)
  }

  lemma NoneBefore()
    ensures Before({}, 0)
  {
  }

  lemma BeforeNext(cells: set<(int, int)>, row: set<int>, d: int)
    requires Before(cells, d) && Above(row, d, -d - 1)
    ensures Before(cells + InRound(d, row), d + 1)
  {
  }

  lemma VisitedAtLast(g: Grid, s: Segment, cells: set<(int, int)>, row: set<int>, d: int)
    requires Valid(g) && 2 * d - 1 <= Distance(g) <= 2 * d
    requires Before(cells, d) && (forall c :: c in row <==> Visited(g, s, d, c))
    ensures AllVisited(g, s, cells + InRound(d, row))
  {
    hide Distance, OnRow;
  }

  /** These cells of bv, and no others, are used to fill cells of round d. */
  ghost predicate UsedBy(used: set<int>, cells: set<int>, d: int) {
    forall cell :: cell in used <==> exists c :: c in cells && Uses(d, c, cell)
  }

  /** These are used in several rounds, the seed included. */
  ghost predicate AllUsed(touched: set<int>, cells: set<(int, int)>) {
    forall cell :: cell in touched <==> cell == 1 || exists d, c :: (d, c) in cells && Uses(d, c, cell)
  }

  lemma NoneUsed(d: int)
    ensures UsedBy({}, {}, d) && AllUsed({1}, {})
  {
  }

  lemma UsedNext(used: set<int>, cells: set<int>, d: int, c: int, more: set<int>)
    requires UsedBy(used, cells, d) && forall cell :: cell in more <==> Uses(d, c, cell)
    ensures UsedBy(used + more, cells + {c}, d)
  {
    hide Uses;
    forall cell ensures cell in used + more <==> exists c' :: c' in cells + {c} && Uses(d, c', cell) {
      if cell in more {
        assert c in cells + {c} && Uses(d, c, cell);
      } else if cell in used {
        var c' :| c' in cells && Uses(d, c', cell);
        assert c' in cells + {c};
      }
    }
  }

  lemma AllUsedNext(touched: set<int>, cells: set<(int, int)>, used: set<int>, row: set<int>, d: int)
    requires AllUsed(touched, cells) && UsedBy(used, row, d)
    ensures AllUsed(touched + used, cells + InRound(d, row))
  {
    hide Uses;
    var all := cells + InRound(d, row);
    forall cell ensures cell in touched + used <==> cell == 1 || exists e, c :: (e, c) in all && Uses(e, c, cell) {
      if cell in used {
        var c :| c in row && Uses(d, c, cell);
        assert (d, c) in all;
      } else if cell in touched && cell != 1 {
        var e, c :| (e, c) in cells && Uses(e, c, cell);
        assert (e, c) in all;
      }
    }
  }

  /** What the forward half of a round reads of bv has been written the round before. */
  lemma ReadBefore(touched: set<int>, cells: set<(int, int)>, read: set<int>, d: int)
    requires AllUsed(touched, cells) && Before(cells, d) && forall c :: c in read ==> OnRow(c, d - 1)
    ensures touched + read == touched
  {
    forall c | c in read ensures c in touched {
      assert (d - 1, c) in cells && Uses(d - 1, c, c);
    }
  }

  lemma TouchedAtLast(g: Grid, s: Segment, touched: set<int>, cells: set<(int, int)>)
    requires Valid(g) && AllUsed(touched, cells) && AllVisited(g, s, cells)
    ensures forall cell :: cell in touched <==> Touched(g, s, cell)
  {
    hide Uses, Visited;
    forall cell ensures cell in touched <==> Touched(g, s, cell) {
      if cell in touched && cell != 1 {
        var d, c :| (d, c) in cells && Uses(d, c, cell);
        assert Visited(g, s, d, c);
      }
    }
  }

  /** The outermost cells a box touches. */
  lemma TouchedEnds(g: Grid, s: Segment)
    requires g.x1 < g.x2 && g.y1 < g.y2 && IsMiddle(g, s)
    ensures Touched(g, s, 1)
    ensures Distance(g) >= 2 ==> Touched(g, s, Distance(g) / 2)
    ensures Distance(g) >= 1 ==> Touched(g, s, -((Distance(g) - 1) / 2))
  {
    hide Distance, Furthest, FurthestBack, NoMeetingAbove;
    var d, e := Distance(g) / 2, (Distance(g) - 1) / 2;
    if Distance(g) >= 2 { assert Visited(g, s, d, d) && Uses(d, d, d); }
    if Distance(g) >= 1 { assert Visited(g, s, e, -e) && Uses(e, -e, -e); }
  }

  /** No cell lies further out, and in the meeting round none below the diagonals of the box. */
  lemma TouchedWithin(g: Grid, s: Segment, cell: int)
    requires g.x1 < g.x2 && g.y1 < g.y2 && IsMiddle(g, s) && Touched(g, s, cell)
    ensures -(Distance(g) / 2) <= cell && (cell == 1 || cell <= Distance(g) / 2)
    ensures -((Distance(g) - 1) / 2) <= cell || -(Distance(g) / 2) <= cell + Delta(g)
  {
    hide Distance, Furthest, FurthestBack, NoMeetingAbove;
    if cell != 1 {
      var d, c :| Visited(g, s, d, c) && Uses(d, c, cell);
    }
  }

  /** The program addresses backward cells by diagonal, in an array with room
      for those addressed by c.  All it touches exist if and only if neither
      side of the box is too much longer than the other; by c they always do. */
  lemma DiagonalsFit(g: Grid, s: Segment)
    requires g.x1 < g.x2 && g.y1 < g.y2 && IsMiddle(g, s)
    ensures (forall cell :: Touched(g, s, cell) ==> DiagonalFits(g, cell)) <==>
              && (if Distance(g) < 2 then 1 else Distance(g) / 2) + Delta(g) <= LastRound(g)
              && (Distance(g) - 1) / 2 - Delta(g) <= LastRound(g)
    ensures forall cell :: Touched(g, s, cell) ==> 0 <= cell + LastRound(g) < 2 * LastRound(g) + 1
  {
    ParityAndBounds(g, g.x2, g.y2);
    TouchedEnds(g, s);
    forall cell | Touched(g, s, cell)
      ensures -(Distance(g) / 2) <= cell && (cell == 1 || cell <= Distance(g) / 2)
      ensures -((Distance(g) - 1) / 2) <= cell || -(Distance(g) / 2) <= cell + Delta(g)
    {
      TouchedWithin(g, s, cell);
    }
    hide Distance, Touched, From, IsMiddle;
  }

  /** Every cell a box touches exists, addressed by diagonal. */
  ghost predicate AllFit(g: Grid, s: Segment)
    requires Valid(g)
  {
    forall cell :: Touched(g, s, cell) ==> DiagonalFits(g, cell)
  }

  ghost predicate Sized(g: Grid, n: nat, m: nat) {
    g.x2 - g.x1 == n && g.y2 - g.y1 == m
  }

  /** Without free steps every element costs an edit. */
  lemma {:induction false} NothingInCommon(g: Grid, x: int, y: int)
    requires g.x1 <= x && g.y1 <= y && forall i, j :: !g.same(i, j)
    ensures From(g, x, y) == (x - g.x1) + (y - g.y1)
    decreases (x - g.x1) + (y - g.y1)
  {
    if g.x1 < x && g.y1 < y {
      NothingInCommon(g, x - 1, y);
      NothingInCommon(g, x, y - 1);
    }
  }

  /** Two sizes for which all cells always exist, whatever the elements, differ
      by at most one; with any other sizes elements without anything in common
      leave a cell outside. */
  lemma SizesFit(n: nat, m: nat)
    requires n > 0 && m > 0
    ensures (forall g, s :: Sized(g, n, m) && IsMiddle(g, s) ==> AllFit(g, s)) <==> -1 <= n - m <= 1
  {
    hide From, Touched, IsMiddle;
    if -1 <= n - m <= 1 {
      forall g, s | Sized(g, n, m) && IsMiddle(g, s) ensures AllFit(g, s) {
        ParityAndBounds(g, g.x2, g.y2);
        DiagonalsFit(g, s);
      }
    } else {
      var g := Grid(0, 0, n, m, (i, j) => false);
      NothingInCommon(g, n, m);
      var s := MiddleOf(g);
      DiagonalsFit(g, s);
      assert Sized(g, n, m) && !AllFit(g, s);
    }
  }

  /** Three elements and one, with nothing in common: the cells do not all exist. */
  lemma DiagonalsCanMiss(g: Grid)
    requires g.x1 == 0 && g.x2 == 3 && g.y1 == 0 && g.y2 == 1 && !g.same(0, 0) && !g.same(1, 0) && !g.same(2, 0)
    ensures Distance(g) == 4 && OnRow(1, 1) && !DiagonalFits(g, 1)
  {
    assert From(g, 0, 1) == 1 && From(g, 1, 0) == 1 && From(g, 2, 0) == 2 && From(g, 3, 0) == 3;
    hide From;
    FromUnfolds(g, 1, 1);
    FromUnfolds(g, 2, 1);
    FromUnfolds(g, 3, 1);
  }

  /** Three elements and one, equal to the second: the seed itself is outside. */
  lemma SeedCanMiss(g: Grid)
    requires g.x1 == 0 && g.x2 == 3 && g.y1 == 0 && g.y2 == 1 && !g.same(0, 0) && g.same(1, 0) && !g.same(2, 0)
    ensures Distance(g) == 2 && forall s :: Touched(g, s, 1) && !DiagonalFits(g, 1)
  {
    assert From(g, 0, 1) == 1 && From(g, 1, 0) == 1 && From(g, 2, 0) == 2 && From(g, 3, 0) == 3;
    hide From;
    FromUnfolds(g, 1, 1);
    FromUnfolds(g, 2, 1);
    FromUnfolds(g, 3, 1);
  }

  // ----- The search

  /** The free steps of the forward search from (x0, y0). */
  method SlideForward(ghost g: Grid, same: (int, int) -> bool, box: Box, k: int, x0: int) returns (x: int, y: int)
    requires g == box.Region(same) && g.x1 <= x0 && g.y1 <= Row(g, k, x0)
    ensures x0 <= x && y == Row(g, k, x) && !Match(g, x, y)
    ensures From(g, x, y) == From(g, x0, Row(g, k, x0))
  {
    hide From, To;
    x := x0;
    y := x - box.x1 - k + box.y1;
    while x < box.x2 && y < box.y2 && same(x, y)
      invariant x0 <= x && y == Row(g, k, x)
      invariant From(g, x, y) == From(g, x0, Row(g, k, x0))
    {
      MatchIsFree(g, x, y);
      x, y := x + 1, y + 1;
    }
  }

  /** One cell of the forward half of a round. */
  method ForwardCell(ghost g: Grid, fv: array<int>, d: int, dMax: int,
                     same: (int, int) -> bool, box: Box, k: int) returns (x: int, y: int)
    requires g == box.Region(same) && OnRow(k, d)
    requires 0 <= d <= dMax && fv.Length == 2 * dMax + 1 && Ready(g, fv[..], dMax, d)
    modifies fv
    ensures fv[..] == old(fv[..])[k + dMax := x]
    ensures Furthest(g, k, d, x) && y == Row(g, k, x)
  {
    var kOff := k + dMax;
    ReadyPrepares(g, fv[..], dMax, d, k);
    if k == -d || (k != d && fv[kOff - 1] < fv[kOff + 1]) {
      x := fv[kOff + 1];
    } else {
      x := fv[kOff - 1] + 1;
    }
    ghost var left := if k > -d then fv[kOff - 1] else 0;
    ghost var right := if k < d || d == 0 then fv[kOff + 1] else 0;
    CandidateReached(g, k, d, left, right);
    x, y := SlideForward(g, same, box, k, x);
    SlideStops(g, k, d, left, right, x);
    fv[kOff] := x;
  }

  /** The forward half of a round. */
  method SearchForward(ghost g: Grid, fv: array<int>, bv: array<int>, d: int, dMax: int, delta: int,
                       same: (int, int) -> bool, box: Box) returns (found: bool, ghost read: set<int>)
    requires g == box.Region(same) && Valid(g) && delta == Delta(g)
    requires fv != bv && 0 <= d <= dMax && fv.Length == bv.Length == 2 * dMax + 1
    requires Ready(g, fv[..], dMax, d) && ReadyBack(g, bv[..], dMax, d)
    requires 2 * d - 1 <= Distance(g)
    modifies fv, box
    ensures found ==> IsMiddle(g, box.Answer()) && box.d == 2 * d - 1
    ensures forall c :: c in read ==> OnRow(c, d - 1)
    ensures !found ==> box.Region(same) == g && Filled(g, fv[..], dMax, d, -d) && 2 * d <= Distance(g)
  {
    hide Filled, FilledBack, Ready, ReadyBack, NoMeetingAbove, IsMiddle, Distance, Odd;
    var k := d;
    read := {};
    BeforeForward(g, fv[..], dMax, d);
    while k >= -d
      invariant -d - 2 <= k <= d && (k >= -d ==> OnRow(k, d))
      invariant box.Region(same) == g
      invariant Ready(g, fv[..], dMax, d) && Filled(g, fv[..], dMax, d, k + 1)
      invariant Odd(delta) ==> NoMeetingAbove(g, k, d, d - 1)
      invariant forall c :: c in read ==> OnRow(c, d - 1)
    {
      ghost var f := fv[..];
      var c := k - delta;
      var x, y := ForwardCell(g, fv, d, dMax, same, box, k);
      StoreKeeps(g, f, dMax, d, k, x);
      if Odd(delta) {
        CheckDiagonal(g, bv[..], dMax, k, d, x);
      }
      if Odd(delta) && -(d - 1) <= c <= d - 1 {
        var py := bv[c + dMax];
        OddRow(k, delta, d);
        read := read + {c};
        var px := py - box.y1 + k + box.x1;
        if x >= px {
          box.Fill(px, py, x, y, 2 * d - 1);
          return true, read;
        }
      }
      k := k - 2;
    }
    AfterForward(g, fv[..], bv[..], dMax, d, k);
    return false, read;
  }

  /** The free steps of the backward search from row y0. */
  method SlideBackward(ghost g: Grid, same: (int, int) -> bool, box: Box, k: int, y0: int) returns (x: int, y: int)
    requires g == box.Region(same) && y0 <= g.y2 && Column(g, k, y0) <= g.x2
    ensures y <= y0 && x == Column(g, k, y) && !Match(g, x - 1, y - 1)
    ensures To(g, x, y) == To(g, Column(g, k, y0), y0)
  {
    hide From, To;
    y := y0;
    x := y - box.y1 + k + box.x1;
    while x > box.x1 && y > box.y1 && same(x - 1, y - 1)
      invariant y <= y0 && x == Column(g, k, y)
      invariant To(g, x, y) == To(g, Column(g, k, y0), y0)
    {
      MatchIsFree(g, x - 1, y - 1);
      x, y := x - 1, y - 1;
    }
  }

  /** The backward candidate and the end of its free steps, on the flipped grid. */
  lemma BackCandidateReached(g: Grid, c: int, d: int, left: int, right: int, y: int)
    requires Prepared(Flip(g), c, d, -left, -right)
    requires y == (if c == -d || (c != d && left > right) then right else left - 1)
    ensures y <= g.y2 && Column(g, c + Delta(g), y) <= g.x2 && To(g, Column(g, c + Delta(g), y), y) <= d
  {
    CandidateReached(Flip(g), c, d, -left, -right);
    FlipTo(g, Column(g, c + Delta(g), y), y);
  }

  lemma BackSlideStops(g: Grid, c: int, d: int, left: int, right: int, y: int)
    requires Prepared(Flip(g), c, d, -left, -right)
    requires Candidate(c, d, -left, -right) <= -y && y <= g.y2
    requires var x := Column(g, c + Delta(g), y);
             x <= g.x2 && To(g, x, y) <= d && !Match(g, x - 1, y - 1)
    ensures FurthestBack(g, c + Delta(g), d, y)
  {
    var x, f := Column(g, c + Delta(g), y), Flip(g);
    assert Row(f, c, -y) == -x && -x >= f.y1 && f.x1 == -g.y2 by { hide To, From, Match, Prepared, Candidate; }
    hide *;
    FlipTo(g, x, y);
    FlipMatch(g, x - 1, y - 1);
    SlideStops(f, c, d, -left, -right, -y);
    FlipFurthest(g, c + Delta(g), d, y);
  }

  /** One cell of the backward half of a round. */
  method BackwardCell(ghost g: Grid, bv: array<int>, d: int, dMax: int, delta: int,
                      same: (int, int) -> bool, box: Box, c: int) returns (x: int, y: int, ghost used: set<int>)
    requires g == box.Region(same) && OnRow(c, d) && delta == Delta(g)
    requires 0 <= d <= dMax && bv.Length == 2 * dMax + 1 && ReadyBack(g, bv[..], dMax, d)
    modifies bv
    ensures bv[..] == old(bv[..])[c + dMax := y]
    ensures FurthestBack(g, c + delta, d, y) && x == Column(g, c + delta, y)
    ensures forall cell :: cell in used <==> Uses(d, c, cell)
  {
    hide ReadyBack, FurthestBack, To, OnRow, Prepared;
    var cOff := c + dMax;
    ReadyBackPrepares(g, bv[..], dMax, d, c);
    var fromAbove := c == -d;
    used := {};
    if c != -d && c != d {
      fromAbove := bv[cOff - 1] > bv[cOff + 1];
      used := used + {c - 1, c + 1};
    }
    if fromAbove {
      y := bv[cOff + 1];
      used := used + {c + 1};
    } else {
      y := bv[cOff - 1] - 1;
      used := used + {c - 1};
    }
    ghost var left := if c > -d then bv[cOff - 1] else 0;
    ghost var right := if c < d || d == 0 then bv[cOff + 1] else 0;
    BackCandidateReached(g, c, d, left, right, y);
    x, y := SlideBackward(g, same, box, c + delta, y);
    BackSlideStops(g, c, d, left, right, y);
    bv[cOff] := y;
    used := used + {c};
  }

  /** The backward half of a round. */
  method SearchBackward(ghost g: Grid, fv: array<int>, bv: array<int>, d: int, dMax: int, delta: int,
                        same: (int, int) -> bool, box: Box)
    returns (found: bool, ghost cells: set<int>, ghost used: set<int>)
    requires g == box.Region(same) && Valid(g) && delta == Delta(g)
    requires fv != bv && 0 <= d <= dMax && fv.Length == bv.Length == 2 * dMax + 1
    requires Filled(g, fv[..], dMax, d, -d) && ReadyBack(g, bv[..], dMax, d)
    requires 2 * d <= Distance(g)
    modifies bv, box
    ensures found ==> IsMiddle(g, box.Answer()) && box.d == 2 * d
    ensures UsedBy(used, cells, d)
    ensures Above(cells, d, if found then MeetingCell(g, box.Answer()) - 1 else -d - 1)
    ensures !found ==> box.Region(same) == g && FilledBack(g, bv[..], dMax, d, -d) && 2 * d + 1 <= Distance(g)
  {
    hide Filled, FilledBack, Ready, ReadyBack, NoMeetingAbove, IsMiddle, Distance, Odd, UsedBy, Uses;
    var c := d;
    cells, used := {}, {};
    NoneUsed(d);
    BeforeBackward(g, bv[..], dMax, d);
    while c >= -d
      invariant -d - 2 <= c <= d && (c >= -d ==> OnRow(c, d)) && Above(cells, d, c) && UsedBy(used, cells, d)
      invariant box.Region(same) == g
      invariant ReadyBack(g, bv[..], dMax, d) && FilledBack(g, bv[..], dMax, d, c + 1)
      invariant !Odd(delta) ==> NoMeetingAbove(g, c + delta, d, d)
    {
      ghost var b := bv[..];
      var k := c + delta;
      ghost var more;
      var x, y;
      x, y, more := BackwardCell(g, bv, d, dMax, delta, same, box, c);
      AboveNext(cells, d, c);
      UsedNext(used, cells, d, c, more);
      cells, used := cells + {c}, used + more;
      StoreBackKeeps(g, b, dMax, d, c, y);
      if !Odd(delta) {
        CheckDiagonalBack(g, fv[..], dMax, c, d, y);
      }
      if !Odd(delta) && -d <= k <= d {
        var px := fv[k + dMax];
        if x <= px {
          var py := px - box.x1 - k + box.y1;
          box.Fill(x, y, px, py, 2 * d);
          return true, cells, used;
        }
      }
      c := c - 2;
    }
    AfterBackward(g, fv[..], bv[..], dMax, d, c);
    return false, cells, used;
  }

  /** One round: both frontiers move on by one edit, unless they meet. */
  method SearchPath(ghost g: Grid, fv: array<int>, bv: array<int>, d: int, dMax: int, delta: int,
                    same: (int, int) -> bool, box: Box)
    returns (found: bool, ghost cells: set<int>, ghost used: set<int>, ghost read: set<int>)
    requires g == box.Region(same) && Valid(g) && delta == Delta(g)
    requires fv != bv && 0 <= d <= dMax && fv.Length == bv.Length == 2 * dMax + 1
    requires Ready(g, fv[..], dMax, d) && ReadyBack(g, bv[..], dMax, d)
    requires 2 * d - 1 <= Distance(g)
    modifies fv, bv, box
    ensures UsedBy(used, cells, d) && forall c :: c in read ==> OnRow(c, d - 1)
    ensures found ==>
              && IsMiddle(g, box.Answer()) && Distance(g) <= 2 * d
              && forall c :: c in cells <==> Visited(g, box.Answer(), d, c)
    ensures !found ==>
              && box.Region(same) == g && 2 * d + 1 <= Distance(g)
              && Filled(g, fv[..], dMax, d, -d) && FilledBack(g, bv[..], dMax, d, -d)
              && Above(cells, d, -d - 1)
  {
    hide Filled, FilledBack, Ready, ReadyBack, NoMeetingAbove, Overlap, Distance, UsedBy;
    cells, used := {}, {};
    NoneUsed(d);
    found, read := SearchForward(g, fv, bv, d, dMax, delta, same, box);
    if !found {
      found, cells, used := SearchBackward(g, fv, bv, d, dMax, delta, same, box);
    }
  }

  /** Runs rounds until the frontiers meet, which they do by round dMax.  The
      backward cells it fills in each round are those the box visits, and the
      seed and all it reads and writes are those the box touches. */
  method FindMiddle(ghost g: Grid, same: (int, int) -> bool, box: Box)
    returns (found: bool, ghost cells: set<(int, int)>, ghost touched: set<int>)
    requires g == box.Region(same) && g.x1 < g.x2 && g.y1 < g.y2
    modifies box
    ensures found && IsMiddle(g, box.Answer())
    ensures AllVisited(g, box.Answer(), cells)
    ensures forall cell :: cell in touched <==> Touched(g, box.Answer(), cell)
  {
    hide Ready, ReadyBack, Filled, FilledBack, IsMiddle, Distance, From, OnRow;
    hide Before, Above, Visited, InRound, AllVisited, UsedBy, AllUsed, Touched;
    var n, m := box.x2 - box.x1, box.y2 - box.y1;
    var delta, max := n - m, m + n;
    var dMax := (max + max % 2) / 2;
    var fv := new int[max + max % 2 + 1];
    var bv := new int[max + max % 2 + 1];
    fv[1 + dMax] := box.x1;
    bv[1 + dMax] := box.y2;
    var d := 0;
    cells, touched := {}, {1};
    DistanceBounds(g);
    ReadyFirst(g, fv[..], bv[..], dMax);
    NoneBefore();
    NoneUsed(0);
    while d <= dMax
      invariant 0 <= d <= dMax + 1
      invariant box.Region(same) == g
      invariant d <= dMax ==> Ready(g, fv[..], dMax, d) && ReadyBack(g, bv[..], dMax, d)
      invariant 2 * d - 1 <= Distance(g) && Before(cells, d) && AllUsed(touched, cells)
    {
      ghost var row, used, read;
      found, row, used, read := SearchPath(g, fv, bv, d, dMax, delta, same, box);
      ReadBefore(touched, cells, read, d);
      AllUsedNext(touched, cells, used, row, d);
      touched := touched + read + used;
      if found {
        VisitedAtLast(g, box.Answer(), cells, row, d);
        TouchedAtLast(g, box.Answer(), touched, cells + InRound(d, row));
        return true, cells + InRound(d, row), touched;
      }
      BeforeNext(cells, row, d);
      cells := cells + InRound(d, row);
      if d < dMax {
        ReadyNext(g, fv[..], bv[..], dMax, d + 1);
      }
      d := d + 1;
    }
    assert false;
  }
}
