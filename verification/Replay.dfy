/** What a script does when it is replayed, and why none is shorter. */
module Replay {
  import opened Sequences
  import opened EditGrid
  import opened Frontier
  import opened Middle
  import opened EditScript

  function Prefixed<T>(p: seq<T>, o: Option<seq<T>>): Option<seq<T>> {
    if o.Some? then Some(p + o.value) else None
  }

  /** Replays a script on a.  The cursor stands before element i of a when j
      elements of the result are there; elements between two edits are copied,
      and after the last edit everything before end is. */
  function Replayed<T>(a: seq<T>, b: seq<T>, i: int, j: int, end: int, s: seq<Edit>): Option<seq<T>>
    requires 0 <= i <= end <= |a| && 0 <= j
    decreases |s|
  {
    if s == [] then Some(a[i..end])
    else
      match s[0]
      case Del(p) =>
        if i <= p < end then Prefixed(a[i..p], Replayed(a, b, p + 1, j + (p - i), end, s[1..])) else None
      case Add(q) =>
        if j <= q < |b| && i + (q - j) <= end
        then Prefixed(a[i..i + (q - j)] + [b[q]], Replayed(a, b, i + (q - j), q + 1, end, s[1..]))
        else None
  }

  /** Moving the cursor along a stretch without edits copies that stretch. */
  lemma CopyAhead<T>(a: seq<T>, b: seq<T>, i: int, j: int, x: int, y: int, end: int, s: seq<Edit>)
    requires 0 <= i <= x <= end <= |a| && 0 <= j && x - i == y - j
    requires Replayed(a, b, x, y, end, s).Some?
    ensures Replayed(a, b, i, j, end, s) == Prefixed(a[i..x], Replayed(a, b, x, y, end, s))
  {
    if s == [] {
      Slices(a, i, x, end);
    } else {
      match s[0]
      case Del(p) =>
        Slices(a, i, x, p);
        Associative(a[i..x], a[x..p], Replayed(a, b, p + 1, y + (p - x), end, s[1..]).value);
      case Add(q) =>
        var e := x + (q - y);
        Slices(a, i, x, e);
        Associative(a[i..x], a[x..e], [b[q]]);
        Associative(a[i..x], a[x..e] + [b[q]], Replayed(a, b, e, q + 1, end, s[1..]).value);
    }
  }

  lemma NothingReplays<T>(a: seq<T>, b: seq<T>, i: int, j: int, end: int)
    requires 0 <= i <= end <= |a| && 0 <= j
    ensures Replayed(a, b, i, j, end, []) == Some(a[i..end])
  {
  }

  /** The first edit of a script, and what it leaves to be replayed. */
  lemma DelReplays<T>(a: seq<T>, b: seq<T>, i: int, j: int, end: int, s: seq<Edit>)
    requires 0 <= i <= end <= |a| && 0 <= j && s != [] && s[0].Del? && Replayed(a, b, i, j, end, s).Some?
    ensures var p := s[0].i;
            && i <= p < end && Replayed(a, b, p + 1, j + (p - i), end, s[1..]).Some?
            && Replayed(a, b, i, j, end, s).value == a[i..p] + Replayed(a, b, p + 1, j + (p - i), end, s[1..]).value
  {
  }

  lemma AddReplays<T>(a: seq<T>, b: seq<T>, i: int, j: int, end: int, s: seq<Edit>)
    requires 0 <= i <= end <= |a| && 0 <= j && s != [] && s[0].Add? && Replayed(a, b, i, j, end, s).Some?
    ensures var q := s[0].j;
            var e := i + (q - j);
            && j <= q < |b| && e <= end && Replayed(a, b, e, q + 1, end, s[1..]).Some?
            && Replayed(a, b, i, j, end, s).value == a[i..e] + ([b[q]] + Replayed(a, b, e, q + 1, end, s[1..]).value)
  {
    var q := s[0].j;
    var e := i + (q - j);
    Associative(a[i..e], [b[q]], Replayed(a, b, e, q + 1, end, s[1..]).value);
  }

  lemma DelFirst<T>(a: seq<T>, b: seq<T>, i: int, j: int, end: int, p: int, s: seq<Edit>)
    requires 0 <= i <= p < end <= |a| && 0 <= j && Replayed(a, b, p + 1, j + (p - i), end, s).Some?
    ensures Replayed(a, b, i, j, end, [Del(p)] + s) == Some(a[i..p] + Replayed(a, b, p + 1, j + (p - i), end, s).value)
  {
    assert ([Del(p)] + s)[1..] == s;
  }

  lemma AddFirst<T>(a: seq<T>, b: seq<T>, i: int, j: int, end: int, q: int, s: seq<Edit>)
    requires 0 <= i && 0 <= j <= q < |b| && i + (q - j) <= end <= |a|
    requires Replayed(a, b, i + (q - j), q + 1, end, s).Some?
    ensures var e := i + (q - j);
            Replayed(a, b, i, j, end, [Add(q)] + s) == Some(a[i..e] + ([b[q]] + Replayed(a, b, e, q + 1, end, s).value))
  {
    assert ([Add(q)] + s)[1..] == s;
    var e := i + (q - j);
    Associative(a[i..e], [b[q]], Replayed(a, b, e, q + 1, end, s).value);
  }

  lemma HeadOf(s: seq<Edit>, t: seq<Edit>)
    requires s != []
    ensures s + t == [s[0]] + (s[1..] + t)
  {
  }

  /** Scripts for neighbouring stretches can be replayed one after the other. */
  lemma {:induction false} OneAfterTheOther<T>(a: seq<T>, b: seq<T>, i: int, j: int, x: int, y: int, end: int,
                                               s: seq<Edit>, t: seq<Edit>)
    requires 0 <= i <= x <= end <= |a| && 0 <= j <= y
    requires Replayed(a, b, i, j, x, s).Some? && |Replayed(a, b, i, j, x, s).value| == y - j
    requires Replayed(a, b, x, y, end, t).Some?
    ensures Replayed(a, b, i, j, end, s + t) == Prefixed(Replayed(a, b, i, j, x, s).value, Replayed(a, b, x, y, end, t))
    decreases |s|
  {
    hide Replayed;
    var v := Replayed(a, b, x, y, end, t).value;
    if s == [] {
      assert s + t == t;
      NothingReplays(a, b, i, j, x);
      CopyAhead(a, b, i, j, x, y, end, t);
    } else if s[0].Del? {
      var p := s[0].i;
      DelReplays(a, b, i, j, x, s);
      OneAfterTheOther(a, b, p + 1, j + (p - i), x, y, end, s[1..], t);
      DelFirst(a, b, i, j, end, p, s[1..] + t);
      HeadOf(s, t);
      Associative(a[i..p], Replayed(a, b, p + 1, j + (p - i), x, s[1..]).value, v);
    } else {
      var q := s[0].j;
      var e := i + (q - j);
      AddReplays(a, b, i, j, x, s);
      OneAfterTheOther(a, b, e, q + 1, x, y, end, s[1..], t);
      AddFirst(a, b, i, j, end, q, s[1..] + t);
      HeadOf(s, t);
      Associative([b[q]], Replayed(a, b, e, q + 1, x, s[1..]).value, v);
      Associative(a[i..e], [b[q]] + Replayed(a, b, e, q + 1, x, s[1..]).value, v);
    }
  }

  lemma {:induction false} DeletionsReplay<T>(a: seq<T>, b: seq<T>, lo: int, hi: int, j: int)
    requires 0 <= lo <= hi <= |a| && 0 <= j
    ensures Replayed(a, b, lo, j, hi, Deletions(lo, hi)) == Some([])
    decreases hi - lo
  {
    hide Replayed;
    NothingReplays(a, b, hi, j, hi);
    if lo < hi {
      var last := [Del(hi - 1)];
      DeletionsReplay(a, b, lo, hi - 1, j);
      DelFirst(a, b, hi - 1, j, hi, hi - 1, []);
      assert last + [] == last && a[hi - 1..hi - 1] + a[hi..hi] == [];
      OneAfterTheOther(a, b, lo, j, hi - 1, j, hi, Deletions(lo, hi - 1), last);
    } else {
      assert a[lo..hi] == [];
    }
  }

  lemma {:induction false} AdditionsReplay<T>(a: seq<T>, b: seq<T>, i: int, lo: int, hi: int)
    requires 0 <= lo <= hi <= |b| && 0 <= i <= |a|
    ensures Replayed(a, b, i, lo, i, Additions(lo, hi)) == Some(b[lo..hi])
    decreases hi - lo
  {
    hide Replayed;
    NothingReplays(a, b, i, hi, i);
    if lo < hi {
      var last := [Add(hi - 1)];
      AdditionsReplay(a, b, i, lo, hi - 1);
      AddFirst(a, b, i, hi - 1, i, hi - 1, []);
      assert last + [] == last && a[i..i] + ([b[hi - 1]] + a[i..i]) == b[hi - 1..hi];
      OneAfterTheOther(a, b, i, lo, i, hi - 1, i, Additions(lo, hi - 1), last);
      Slices(b, lo, hi - 1, hi);
    } else {
      assert b[lo..hi] == [] && a[i..i] == [];
    }
  }

  // ----- When a script turns a into b

  /** The callback compares for equality, and the box lies within a and b. */
  ghost predicate Compares<T(!new)>(g: Grid, a: seq<T>, b: seq<T>) {
    && 0 <= g.x1 <= g.x2 <= |a| && 0 <= g.y1 <= g.y2 <= |b|
    && forall i, j :: 0 <= i < |a| && 0 <= j < |b| ==> (g.same(i, j) <==> a[i] == b[j])
  }

  lemma ComparesWithin<T(!new)>(g: Grid, t: Grid, a: seq<T>, b: seq<T>)
    requires Compares(g, a, b) && Valid(t) && Inside(g, t.x1, t.y1) && Inside(g, t.x2, t.y2) && t.same == g.same
    ensures Compares(t, a, b)
  {
  }

  lemma AllSameSlices<T(!new)>(g: Grid, a: seq<T>, b: seq<T>, k: int, lo: int, hi: int)
    requires Compares(g, a, b) && 0 <= lo <= hi <= |a| && 0 <= lo - k && hi - k <= |b|
    ensures AllSame(g.same, k, lo, hi) <==> a[lo..hi] == b[lo - k..hi - k]
  {
    if a[lo..hi] == b[lo - k..hi - k] {
      forall i | lo <= i < hi ensures SameOn(g.same, i, k) {
        assert a[i] == a[lo..hi][i - lo] == b[lo - k..hi - k][i - lo] == b[i - k];
      }
    } else if AllSame(g.same, k, lo, hi) {
      forall i | 0 <= i < hi - lo ensures a[lo..hi][i] == b[lo - k..hi - k][i] {
        assert SameOn(g.same, lo + i, k);
      }
    }
  }

  /** Three pieces make up a slice if and only if each makes up its part of it. */
  lemma Pieces<T>(p: seq<T>, v: seq<T>, q: seq<T>, b: seq<T>, lo: int, hi: int)
    requires 0 <= lo && lo + |p| + |v| + |q| == hi <= |b|
    ensures var m, n := lo + |p|, lo + |p| + |v|;
            p + (v + q) == b[lo..hi] <==> p == b[lo..m] && v == b[m..n] && q == b[n..hi]
  {
    var m, n := lo + |p|, lo + |p| + |v|;
    Slices(b, m, n, hi);
    Slices(b, lo, m, hi);
    if p + (v + q) == b[lo..hi] {
      PrefixOfSlice(p, v + q, b, lo, hi);
      PrefixOfSlice(v, q, b, m, hi);
    }
  }

  lemma PrefixOfSlice<T>(p: seq<T>, v: seq<T>, b: seq<T>, j: int, end: int)
    requires 0 <= j <= end <= |b| && p + v == b[j..end]
    ensures j + |p| <= end && p == b[j..j + |p|] && v == b[j + |p|..end]
  {
    assert p == (p + v)[..|p|] && v == (p + v)[|p|..];
  }

  /** The outcome of a script on a box: it replays to as many elements as b has
      there, and to just those of b if and only if good. */
  ghost predicate Outcome<T(!new)>(g: Grid, a: seq<T>, b: seq<T>, s: seq<Edit>, good: bool)
    requires Compares(g, a, b)
  {
    var v := Replayed(a, b, g.x1, g.y1, g.x2, s);
    v.Some? && |v.value| == g.y2 - g.y1 && (v.value == b[g.y1..g.y2] <==> good)
  }

  /** Trimmed ends are copied. */
  lemma CopiedEnds<T>(g: Grid, t: Grid, a: seq<T>, b: seq<T>, s: seq<Edit>)
    requires 0 <= g.x1 && g.x2 <= |a| && 0 <= g.y1 && TrimmedTo(g, t)
    requires Replayed(a, b, t.x1, t.y1, t.x2, s).Some?
    requires |Replayed(a, b, t.x1, t.y1, t.x2, s).value| == t.y2 - t.y1
    ensures Replayed(a, b, g.x1, g.y1, g.x2, s) ==
              Some(a[g.x1..t.x1] + (Replayed(a, b, t.x1, t.y1, t.x2, s).value + a[t.x2..g.x2]))
  {
    assert Replayed(a, b, t.x2, t.y2, g.x2, []) == Some(a[t.x2..g.x2]);
    OneAfterTheOther(a, b, t.x1, t.y1, t.x2, t.y2, g.x2, s, []);
    assert s + [] == s;
    CopyAhead(a, b, g.x1, g.y1, t.x1, t.y1, g.x2, s);
  }

  lemma EndsAreEqual<T(!new)>(g: Grid, t: Grid, a: seq<T>, b: seq<T>)
    requires Compares(g, a, b) && TrimmedTo(g, t)
    ensures 0 <= g.x1 <= t.x1 <= t.x2 <= g.x2 <= |a| && 0 <= g.y1 <= t.y1 <= t.y2 <= g.y2 <= |b|
    ensures a[g.x1..t.x1] == b[g.y1..t.y1] && a[t.x2..g.x2] == b[t.y2..g.y2]
  {
    AllSameSlices(g, a, b, g.x1 - g.y1, g.x1, t.x1);
    AllSameSlices(g, a, b, g.x2 - g.y2, t.x2, g.x2);
    hide AllSame, Compares;
    assert t.x1 - (g.x1 - g.y1) == t.y1 && t.x2 - (g.x2 - g.y2) == t.y2;
  }

  /** Trimmed ends are equal, so they do not matter. */
  lemma EqualEnds<T(!new)>(g: Grid, t: Grid, a: seq<T>, b: seq<T>, v: seq<T>)
    requires Compares(g, a, b) && TrimmedTo(g, t) && |v| == t.y2 - t.y1
    ensures a[g.x1..t.x1] + (v + a[t.x2..g.x2]) == b[g.y1..g.y2] <==> v == b[t.y1..t.y2]
  {
    hide *;
    EndsAreEqual(g, t, a, b);
    Pieces(a[g.x1..t.x1], v, a[t.x2..g.x2], b, g.y1, g.y2);
  }

  lemma OutcomeOfTrimmed<T(!new)>(g: Grid, t: Grid, a: seq<T>, b: seq<T>, s: seq<Edit>, good: bool)
    requires Compares(g, a, b) && Compares(t, a, b) && TrimmedTo(g, t)
    requires Outcome(t, a, b, s, good)
    ensures Outcome(g, a, b, s, good)
  {
    var v := Replayed(a, b, t.x1, t.y1, t.x2, s).value;
    CopiedEnds(g, t, a, b, s);
    EqualEnds(g, t, a, b, v);
    hide Replayed, AllSame, Compares;
  }

  /** Two halves are replayed one after the other, and the stretch between them is copied. */
  lemma ReplayedHalves<T>(t: Grid, l: Grid, r: Grid, a: seq<T>, b: seq<T>, s1: seq<Edit>, s2: seq<Edit>)
    requires 0 <= t.x1 && t.x2 <= |a| && 0 <= t.y1 && SplitInto(t, l, r)
    requires Replayed(a, b, l.x1, l.y1, l.x2, s1).Some? && Replayed(a, b, r.x1, r.y1, r.x2, s2).Some?
    requires |Replayed(a, b, l.x1, l.y1, l.x2, s1).value| == l.y2 - l.y1
    ensures Replayed(a, b, t.x1, t.y1, t.x2, s1 + s2) ==
              Some(Replayed(a, b, l.x1, l.y1, l.x2, s1).value +
                   (a[l.x2..r.x1] + Replayed(a, b, r.x1, r.y1, r.x2, s2).value))
  {
    CopyAhead(a, b, l.x2, l.y2, r.x1, r.y1, r.x2, s2);
    OneAfterTheOther(a, b, l.x1, l.y1, l.x2, l.y2, r.x2, s1, s2);
  }

  lemma StretchIsEqual<T(!new)>(t: Grid, l: Grid, r: Grid, a: seq<T>, b: seq<T>)
    requires Compares(t, a, b) && SplitInto(t, l, r)
    ensures 0 <= t.x1 == l.x1 <= l.x2 <= r.x1 <= r.x2 == t.x2 <= |a|
    ensures 0 <= t.y1 == l.y1 <= l.y2 <= r.y1 <= r.y2 == t.y2 <= |b| && r.x1 - l.x2 == r.y1 - l.y2
    ensures EqualBetween(t.same, Between(l, r)) <==> a[l.x2..r.x1] == b[l.y2..r.y1]
  {
    AllSameSlices(t, a, b, l.x2 - l.y2, l.x2, r.x1);
    hide AllSame, Compares, Distance;
    assert l.x2 - (l.x2 - l.y2) == l.y2 && r.x1 - (l.x2 - l.y2) == r.y1;
  }

  lemma EqualHalves<T(!new)>(t: Grid, l: Grid, r: Grid, a: seq<T>, b: seq<T>, v: seq<T>, w: seq<T>)
    requires Compares(t, a, b) && SplitInto(t, l, r) && |v| == l.y2 - l.y1 && |w| == r.y2 - r.y1
    ensures v + (a[l.x2..r.x1] + w) == b[t.y1..t.y2] <==>
              EqualBetween(t.same, Between(l, r)) && v == b[l.y1..l.y2] && w == b[r.y1..r.y2]
  {
    hide *;
    StretchIsEqual(t, l, r, a, b);
    Pieces(v, a[l.x2..r.x1], w, b, t.y1, t.y2);
  }

  lemma OutcomeOfSplit<T(!new)>(t: Grid, l: Grid, r: Grid, a: seq<T>, b: seq<T>, s1: seq<Edit>, s2: seq<Edit>,
                                good1: bool, good2: bool, good: bool)
    requires Compares(t, a, b) && Compares(l, a, b) && Compares(r, a, b) && SplitInto(t, l, r)
    requires Outcome(l, a, b, s1, good1) && Outcome(r, a, b, s2, good2)
    requires good == (EqualBetween(t.same, Between(l, r)) && good1 && good2)
    ensures Outcome(t, a, b, s1 + s2, good)
  {
    ReplayedHalves(t, l, r, a, b, s1, s2);
    EqualHalves(t, l, r, a, b, Replayed(a, b, l.x1, l.y1, l.x2, s1).value,
                Replayed(a, b, r.x1, r.y1, r.x2, s2).value);
    hide Replayed, EqualBetween, Between, Compares;
  }

  lemma OutcomeOfRun<T(!new)>(t: Grid, a: seq<T>, b: seq<T>)
    requires Compares(t, a, b)
    ensures t.y1 == t.y2 ==> Outcome(t, a, b, Deletions(t.x1, t.x2), true)
    ensures t.x1 == t.x2 ==> Outcome(t, a, b, Additions(t.y1, t.y2), true)
  {
    DeletionsReplay(a, b, t.x1, t.x2, t.y1);
    AdditionsReplay(a, b, t.x1, t.y1, t.y2);
  }

  /** The script of a box always replays, to as many elements as b has there;
      it yields b if and only if the recursion stepped over equal elements only. */
  lemma {:induction false} ScriptOutcome<T(!new)>(g: Grid, a: seq<T>, b: seq<T>, joined: bool)
    requires Compares(g, a, b)
    ensures Outcome(g, a, b, Script(g, joined), AllEqual(g.same, Skipped(g, joined)))
    decreases Size(g)
  {
    var t, l, r := SplitScript(g, joined);
    var good := AllEqual(g.same, Skipped(g, joined));
    ComparesWithin(g, t, a, b);
    if t.x1 < t.x2 && t.y1 < t.y2 {
      ComparesWithin(t, l, a, b);
      ComparesWithin(t, r, a, b);
      ScriptOutcome(l, a, b, joined);
      ScriptOutcome(r, a, b, joined);
      AllEqualAround(g.same, Skipped(l, joined), Between(l, r), Skipped(r, joined));
      hide Compares, Outcome, AllEqual, EqualBetween, Around, Between, SplitInto, TrimmedTo, Script, Trim;
      OutcomeOfSplit(t, l, r, a, b, Script(l, joined), Script(r, joined),
                     AllEqual(g.same, Skipped(l, joined)), AllEqual(g.same, Skipped(r, joined)), good);
    } else {
      OutcomeOfRun(t, a, b);
    }
    hide *;
    OutcomeOfTrimmed(g, t, a, b, Script(g, joined), good);
  }

  ghost predicate NothingSkipped(q: seq<Stretch>) {
    forall i :: 0 <= i < |q| ==> q[i].lo == q[i].hi
  }

  lemma NothingAround(p: seq<Stretch>, s: Stretch, q: seq<Stretch>)
    requires NothingSkipped(p) && s.lo == s.hi && NothingSkipped(q)
    ensures NothingSkipped(Around(p, s, q))
  {
  }

  /** Halves that share a point step over nothing. */
  lemma {:induction false} JoinedSkipsNothing(g: Grid)
    requires Valid(g)
    ensures NothingSkipped(Skipped(g, true))
    decreases Size(g)
  {
    var t, l, r := SplitScript(g, true);
    hide Skipped, Script, Trim, Around, NothingSkipped, Distance, SplitInto, Left, Right, MiddleOf, TrimmedTo;
    if t.x1 < t.x2 && t.y1 < t.y2 {
      JoinedSkipsNothing(l);
      JoinedSkipsNothing(r);
      NothingAround(Skipped(l, true), Between(l, r), Skipped(r, true));
    } else {
      NothingInNothing();
    }
  }

  lemma NothingInNothing()
    ensures NothingSkipped([])
  {
  }

  /** What is empty is equal. */
  lemma NothingIsEqual(same: (int, int) -> bool, q: seq<Stretch>)
    requires NothingSkipped(q)
    ensures AllEqual(same, q)
  {
  }

  // ----- No script is shorter

  lemma {:induction false} CopyingIsFree<T(!new)>(g: Grid, a: seq<T>, b: seq<T>, i: int, j: int, x: int, y: int)
    requires Compares(g, a, b) && Inside(g, i, j) && Inside(g, x, y) && i <= x && x - i == y - j
    requires a[i..x] == b[j..y]
    ensures To(g, i, j) == To(g, x, y)
    decreases x - i
  {
    if i < x {
      assert a[i] == a[i..x][0] == b[j..y][0] == b[j];
      assert a[i + 1..x] == a[i..x][1..] == b[j..y][1..] == b[j + 1..y];
      CopyingIsFree(g, a, b, i + 1, j + 1, x, y);
    }
  }

  /** Copying up to a deletion or an addition, and then that edit, costs one. */
  lemma OneEdit<T(!new)>(g: Grid, a: seq<T>, b: seq<T>, i: int, j: int, x: int, y: int, v: seq<T>)
    requires Compares(g, a, b) && Inside(g, i, j) && i <= x <= g.x2 && y == j + (x - i)
    requires a[i..x] + v == b[j..g.y2]
    ensures y <= g.y2 && v == b[y..g.y2]
    ensures x < g.x2 ==> Inside(g, x + 1, y) && To(g, i, j) <= 1 + To(g, x + 1, y)
    ensures y < g.y2 ==> Inside(g, x, y + 1) && To(g, i, j) <= 1 + To(g, x, y + 1)
  {
    hide To, From, Match;
    PrefixOfSlice(a[i..x], v, b, j, g.y2);
    CopyingIsFree(g, a, b, i, j, x, y);
    if x < g.x2 { NeighboursTo(g, x + 1, y); }
    if y < g.y2 { NeighboursTo(g, x, y + 1); }
  }

  lemma OneAddition<T(!new)>(g: Grid, a: seq<T>, b: seq<T>, i: int, j: int, e: int, q: int, v: seq<T>)
    requires Compares(g, a, b) && Inside(g, i, j) && i <= e <= g.x2 && q == j + (e - i) && q < |b|
    requires a[i..e] + ([b[q]] + v) == b[j..g.y2]
    ensures q < g.y2 && v == b[q + 1..g.y2]
    ensures Inside(g, e, q + 1) && To(g, i, j) <= 1 + To(g, e, q + 1)
  {
    OneEdit(g, a, b, i, j, e, q, [b[q]] + v);
    assert 0 <= q <= g.y2 <= |b|;
    hide *;
    PrefixOfSlice([b[q]], v, b, q, g.y2);
  }

  lemma NothingLeft<T(!new)>(g: Grid, a: seq<T>, b: seq<T>, i: int, j: int)
    requires Compares(g, a, b) && Inside(g, i, j)
    requires Replayed(a, b, i, j, g.x2, []) == Some(b[j..g.y2])
    ensures To(g, i, j) == 0
  {
    assert a[i..g.x2] == b[j..g.y2] && |a[i..g.x2]| == g.x2 - i;
    CopyingIsFree(g, a, b, i, j, g.x2, g.y2);
  }

  lemma InBounds<T(!new)>(g: Grid, a: seq<T>, b: seq<T>, i: int, j: int)
    requires Compares(g, a, b) && Inside(g, i, j)
    ensures 0 <= i <= g.x2 <= |a| && 0 <= j <= g.y2 <= |b|
  {
  }

  lemma {:induction false} NoShorterAfterDel<T(!new)>(g: Grid, a: seq<T>, b: seq<T>, i: int, j: int, s: seq<Edit>)
    requires Compares(g, a, b) && Inside(g, i, j) && s != [] && s[0].Del?
    requires Replayed(a, b, i, j, g.x2, s) == Some(b[j..g.y2])
    ensures To(g, i, j) <= |s|
    decreases |s|, 0
  {
    hide *;
    InBounds(g, a, b, i, j);
    var p := s[0].i;
    DelReplays(a, b, i, j, g.x2, s);
    OneEdit(g, a, b, i, j, p, j + (p - i), Replayed(a, b, p + 1, j + (p - i), g.x2, s[1..]).value);
    NoShorterScript(g, a, b, p + 1, j + (p - i), s[1..]);
  }

  lemma {:induction false} NoShorterAfterAdd<T(!new)>(g: Grid, a: seq<T>, b: seq<T>, i: int, j: int, s: seq<Edit>)
    requires Compares(g, a, b) && Inside(g, i, j) && s != [] && s[0].Add?
    requires Replayed(a, b, i, j, g.x2, s) == Some(b[j..g.y2])
    ensures To(g, i, j) <= |s|
    decreases |s|, 0
  {
    hide *;
    InBounds(g, a, b, i, j);
    var q := s[0].j;
    var e := i + (q - j);
    AddReplays(a, b, i, j, g.x2, s);
    OneAddition(g, a, b, i, j, e, q, Replayed(a, b, e, q + 1, g.x2, s[1..]).value);
    NoShorterScript(g, a, b, e, q + 1, s[1..]);
  }

  /** Every script that turns the rest of a into the rest of b takes at least the distance. */
  lemma {:induction false} NoShorterScript<T(!new)>(g: Grid, a: seq<T>, b: seq<T>, i: int, j: int, s: seq<Edit>)
    requires Compares(g, a, b) && Inside(g, i, j)
    requires Replayed(a, b, i, j, g.x2, s) == Some(b[j..g.y2])
    ensures To(g, i, j) <= |s|
    decreases |s|, 1
  {
    hide *;
    if s == [] {
      NothingLeft(g, a, b, i, j);
    } else if s[0].Del? {
      NoShorterAfterDel(g, a, b, i, j, s);
    } else {
      NoShorterAfterAdd(g, a, b, i, j, s);
    }
  }

  // ----- Whole sequences

  /** The comparison of two sequences by index. */
  function Comparison<T(==)>(a: seq<T>, b: seq<T>): (int, int) -> bool {
    (i: int, j: int) => 0 <= i < |a| && 0 <= j < |b| && a[i] == b[j]
  }

  function Whole<T(==)>(a: seq<T>, b: seq<T>): Grid {
    Grid(0, 0, |a|, |b|, Comparison(a, b))
  }

  ghost predicate TurnsInto<T>(a: seq<T>, b: seq<T>, s: seq<Edit>) {
    Replayed(a, b, 0, 0, |a|, s) == Some(b)
  }

  /** The program as written: its script turns a into b exactly when no split
      stepped over unequal elements. */
  lemma LiteralScriptTurns<T(!new)>(a: seq<T>, b: seq<T>)
    ensures TurnsInto(a, b, Script(Whole(a, b), false)) <==>
              AllEqual(Whole(a, b).same, Skipped(Whole(a, b), false))
  {
    ScriptOutcome(Whole(a, b), a, b, false);
    hide Script, Skipped, AllEqual, Replayed;
    assert b[0..|b|] == b;
  }

  /** So it does whenever at most three edits are needed. */
  lemma NearScriptTurns<T(!new)>(a: seq<T>, b: seq<T>)
    requires Distance(Whole(a, b)) <= 3
    ensures TurnsInto(a, b, Script(Whole(a, b), false))
  {
    hide *;
    WholeIsValid(a, b);
    NearSkipsEqual(Whole(a, b));
    LiteralScriptTurns(a, b);
  }

  lemma WholeIsValid<T(!new)>(a: seq<T>, b: seq<T>)
    ensures Valid(Whole(a, b))
  {
  }

  /** With halves that share a point, the script always turns a into b. */
  lemma JoinedScriptTurns<T(!new)>(a: seq<T>, b: seq<T>)
    ensures TurnsInto(a, b, Script(Whole(a, b), true))
  {
    ScriptOutcome(Whole(a, b), a, b, true);
    JoinedSkipsNothing(Whole(a, b));
    NothingIsEqual(Whole(a, b).same, Skipped(Whole(a, b), true));
    assert b[0..|b|] == b;
  }

  /** No script that turns a into b is shorter than the one the program emits, skip or no skip. */
  lemma ScriptIsShortest<T(!new)>(a: seq<T>, b: seq<T>, joined: bool, s: seq<Edit>)
    requires TurnsInto(a, b, s)
    ensures |Script(Whole(a, b), joined)| <= |s|
  {
    var g := Whole(a, b);
    ScriptLength(g, joined);
    DistanceFromEitherSide(g);
    assert b[0..|b|] == b;
    NoShorterScript(g, a, b, 0, 0, s);
  }

  /** A box of two by four elements with just two equal pairs, (1, 0) and (1, 2). */
  ghost predicate TwoByFour(g: Grid) {
    && g.x1 == g.y1 == 0 && g.x2 == 2 && g.y2 == 4
    && g.same(1, 0) && g.same(1, 2)
    && !g.same(0, 0) && !g.same(0, 1) && !g.same(0, 2) && !g.same(0, 3) && !g.same(1, 1) && !g.same(1, 3)
  }

  lemma TwoByFourFrom(g: Grid)
    requires TwoByFour(g)
    ensures From(g, 2, 2) == 2 && From(g, 2, 4) == 4 && From(g, 3, 3) == 4
  {
    assert From(g, 1, 0) == 1 && From(g, 3, 0) == 3;
    assert From(g, 0, 1) == 1 && From(g, 0, 2) == 2 && From(g, 0, 3) == 3 && From(g, 0, 4) == 4;
    hide From;
    FromUnfolds(g, 1, 1);
    FromUnfolds(g, 1, 2);
    FromUnfolds(g, 1, 3);
    FromUnfolds(g, 1, 4);
    FromUnfolds(g, 2, 1);
    FromUnfolds(g, 2, 2);
    FromUnfolds(g, 2, 3);
    FromUnfolds(g, 2, 4);
    FromUnfolds(g, 3, 1);
    FromUnfolds(g, 3, 2);
    FromUnfolds(g, 3, 3);
  }

  lemma TwoByFourTo(g: Grid)
    requires TwoByFour(g)
    ensures To(g, 1, 1) == 2
  {
    assert To(g, 2, 1) == 3 && To(g, 2, 3) == 1 && To(g, 1, 4) == 1;
    hide To;
    ToUnfolds(g, 1, 3);
    ToUnfolds(g, 1, 2);
    ToUnfolds(g, 1, 1);
  }

  lemma TwoByFourMiddle(g: Grid)
    requires TwoByFour(g)
    ensures IsMiddle(g, Segment(1, 1, 2, 2, 4))
  {
    TwoByFourFrom(g);
    TwoByFourTo(g);
    DistanceFromEitherSide(g);
    hide From, To;
    assert Overlap(g, 0, 2, 2, 2, 1);
    assert NoMeetingAbove(g, 0, 2, 2);
  }

  /** Its recursion steps over the unequal pair (1, 1). */
  lemma TwoByFourSkips(g: Grid)
    requires TwoByFour(g)
    ensures !AllEqual(g.same, Skipped(g, false))
  {
    TwoByFourMiddle(g);
    MiddleIsUnique(g, Segment(1, 1, 2, 2, 4), MiddleOf(g));
    var t, l, r := SplitScript(g, false);
    assert t == g;
    hide IsMiddle, Script, Skipped, From, To;
    assert Between(l, r) == Stretch(0, 1, 2);
    assert !SameOn(g.same, 1, 0);
    AllEqualAround(g.same, Skipped(l, false), Between(l, r), Skipped(r, false));
  }

  /** Inputs, four edits apart, on which the program as written loses an addition: for x, a and
      a, c, a, b it pairs the a of the first sequence with the c of the second. */
  lemma LiteralScriptCanFail<T(!new)>(x: T, a: T, b: T, c: T)
    requires x != a && x != b && x != c && a != b && a != c
    ensures Distance(Whole([x, a], [a, c, a, b])) == 4
    ensures !TurnsInto([x, a], [a, c, a, b], Script(Whole([x, a], [a, c, a, b]), false))
  {
    var g := Whole([x, a], [a, c, a, b]);
    assert TwoByFour(g);
    assert Distance(g) == From(g, 2, 4);
    TwoByFourFrom(g);
    TwoByFourSkips(g);
    hide *;
    LiteralScriptTurns([x, a], [a, c, a, b]);
  }

  // ----- The entry point

  /** Compares two sequences and logs the script. */
  method Diff<T(==)>(a: seq<T>, b: seq<T>, log: Log, joined: bool)
    modifies log
    ensures log.edits == old(log.edits) + Script(Whole(a, b), joined)
  {
    var box := new Box(0, 0, |a|, |b|);
    ShortestEditScript(Whole(a, b), Comparison(a, b), box, log, joined);
  }
}
