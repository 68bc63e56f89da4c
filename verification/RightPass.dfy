/** The pass of resolve_full_path over a name, from right to left with a count of
    pending parents. */
module RightPass {
  import opened Sequences
  import opened PathText

  // ----- Right to left, with a count of pending parents

  /** s without its last component. */
  function WithoutComponent(s: string): (r: string)
    ensures |r| <= |s| && r == s[..|r|]
    ensures SlashFree(s[|r|..]) && (|r| > 0 ==> r[|r| - 1] == '/')
  {
    if s == "" || s[|s| - 1] == '/' then s else WithoutComponent(s[..|s| - 1])
  }

  /** What the right-to-left pass copies of s when p parents are pending, and
      how many are left over. */
  function RightToLeft(s: string, p: nat): (string, nat)
    decreases |s|
  {
    if s == "" then ("", p)
    else
      var c, rest := s[|s| - 1], s[..|s| - 1];
      if c == '/' && rest != "" && rest[|rest| - 1] == '.' then
        var r := rest[..|rest| - 1];
        if r != "" && r[|r| - 1] == '.' then RightToLeft(r[..|r| - 1], p + 1) else RightToLeft(r, p)
      else if c == '/' && rest != "" && rest[|rest| - 1] == '/' then RightToLeft(rest, p)
      else if c == '/' && p > 0 then RightToLeft(WithoutComponent(rest), p - 1)
      else
        var (out, left) := RightToLeft(rest, p);
        (out + [c], left)
  }

  lemma {:induction false} RightToLeftLength(s: string, p: nat)
    ensures |RightToLeft(s, p).0| <= |s|
    decreases |s|
  {
    if s != "" {
      var c, rest := s[|s| - 1], s[..|s| - 1];
      if c == '/' && rest != "" && rest[|rest| - 1] == '.' {
        var r := rest[..|rest| - 1];
        if r != "" && r[|r| - 1] == '.' { RightToLeftLength(r[..|r| - 1], p + 1); } else { RightToLeftLength(r, p); }
      } else if c == '/' && (rest == "" || rest[|rest| - 1] != '/') && p > 0 {
        RightToLeftLength(WithoutComponent(rest), p - 1);
      } else {
        RightToLeftLength(rest, p);
      }
    }
  }

  // ----- Names it is made for

  /** From the right, a component that is followed by a slash must not end in a
      dot, unless it is dot or dot-dot. */
  predicate FromRight(c: string) {
    SlashFree(c) && (c == "" || Dots(c) || c[|c| - 1] != '.')
  }

  predicate AllFromRight(cs: seq<string>) {
    forall i :: 0 <= i < |cs| ==> FromRight(cs[i])
  }

  // ----- Component by component

  lemma {:induction false} ComponentSkipped(s: string, c: string)
    requires SlashFree(c) && (s == "" || s[|s| - 1] == '/')
    ensures WithoutComponent(s + c) == s
    decreases |c|
  {
    if c == "" {
      assert s + c == s;
    } else {
      ComponentSkipped(s, c[..|c| - 1]);
      assert (s + c)[..|s + c| - 1] == s + c[..|c| - 1];
    }
  }

  /** A character that is no slash is copied. */
  lemma CharCopied(s: string, c: char, p: nat)
    requires c != '/'
    ensures RightToLeft(s + [c], p) == (RightToLeft(s, p).0 + [c], RightToLeft(s, p).1)
  {
    hide WithoutComponent;
    assert (s + [c])[..|s + [c]| - 1] == s;
  }

  lemma {:induction false} TailCopied(s: string, t: string, p: nat)
    requires SlashFree(t)
    ensures RightToLeft(s + t, p) == (RightToLeft(s, p).0 + t, RightToLeft(s, p).1)
    decreases |t|
  {
    hide RightToLeft;
    if t == "" {
      assert s + t == s && RightToLeft(s, p).0 + t == RightToLeft(s, p).0;
    } else {
      var front, c := t[..|t| - 1], t[|t| - 1];
      TailCopied(s, front, p);
      CharCopied(s + front, c, p);
      assert front + [c] == t;
      Associative(s, front, [c]);
      Associative(RightToLeft(s, p).0, front, [c]);
    }
  }

  /** A dot before a slash is skipped with it, and so are two. */
  lemma DotSkipped(s: string, p: nat)
    requires s == "" || s[|s| - 1] != '.'
    ensures RightToLeft(s + "." + "/", p) == RightToLeft(s, p)
  {
    hide WithoutComponent;
    var one := s + "." + "/";
    assert one[..|one| - 1] == s + "." && (s + ".")[..|s + "."| - 1] == s;
  }

  lemma TwoDotsSkipped(s: string, p: nat)
    ensures RightToLeft(s + ".." + "/", p) == RightToLeft(s, p + 1)
  {
    hide WithoutComponent;
    var two := s + ".." + "/";
    assert two[..|two| - 1] == s + ".." && (s + "..")[..|s + ".."| - 1] == s + ".";
    assert (s + ".")[..|s + "."| - 1] == s;
  }

  lemma DotFromRight(s: string, p: nat)
    requires s == "" || s[|s| - 1] == '/'
    ensures RightToLeft(s + "." + "/", p) == RightToLeft(s, p)
    ensures RightToLeft(s + ".." + "/", p) == RightToLeft(s, p + 1)
  {
    hide *;
    DotSkipped(s, p);
    TwoDotsSkipped(s, p);
  }

  lemma EmptyFromRight(s: string, p: nat)
    requires s != "" && s[|s| - 1] == '/'
    ensures RightToLeft(s + "" + "/", p) == RightToLeft(s, p)
  {
    hide WithoutComponent;
    var w := s + "" + "/";
    assert w[..|w| - 1] == s;
  }

  lemma PlainFromRight(s: string, c: string, p: nat)
    requires (s == "" || s[|s| - 1] == '/') && c != "" && SlashFree(c) && c[|c| - 1] != '.'
    ensures RightToLeft(s + c + "/", p) ==
              if p > 0 then RightToLeft(s, p - 1) else (RightToLeft(s, 0).0 + c + "/", RightToLeft(s, 0).1)
  {
    var w, rest := s + c + "/", s + c;
    assert w[..|w| - 1] == rest && w[|w| - 1] == '/' && rest[|rest| - 1] == c[|c| - 1] != '/';
    if p > 0 {
      ComponentSkipped(s, c);
      hide WithoutComponent;
    } else {
      TailCopied(s, c, 0);
      hide WithoutComponent;
      assert RightToLeft(w, 0) == (RightToLeft(rest, 0).0 + ['/'], RightToLeft(rest, 0).1);
    }
  }

  /** The parents pending in front of a component. */
  function Pending(c: string, p: nat): nat {
    if c == "" || c == "." then p else if c == ".." then p + 1 else if p > 0 then p - 1 else 0
  }

  /** One component with its slash, from the right. */
  lemma ComponentStep(s: string, c: string, p: nat)
    requires FromRight(c) && (s == "" || s[|s| - 1] == '/') && (s == "" ==> c != "")
    ensures var r := RightToLeft(s, Pending(c, p));
            RightToLeft(s + c + "/", p) == if c == "" || Dots(c) || p > 0 then r else (r.0 + c + "/", r.1)
  {
    hide RightToLeft;
    if c == "" {
      EmptyFromRight(s, p);
    } else if c == "." || c == ".." {
      DotFromRight(s, p);
    } else {
      PlainFromRight(s, c, p);
    }
  }

  /** The right-to-left pass, component by component. */
  function KeptFromRight(cs: seq<string>, p: nat): (seq<string>, nat) {
    if cs == [] then ([], p)
    else
      var front, c := cs[..|cs| - 1], cs[|cs| - 1];
      if c == "" || c == "." then KeptFromRight(front, p)
      else if c == ".." then KeptFromRight(front, p + 1)
      else if p > 0 then KeptFromRight(front, p - 1)
      else (KeptFromRight(front, 0).0 + [c], KeptFromRight(front, 0).1)
  }

  lemma KeptStep(front: seq<string>, c: string, p: nat)
    ensures var k := KeptFromRight(front, Pending(c, p));
            KeptFromRight(front + [c], p) == if c == "" || Dots(c) || p > 0 then k else (k.0 + [c], k.1)
  {
    assert (front + [c])[..|front|] == front;
  }

  lemma {:induction false} RightToLeftByComponents(cs: seq<string>, p: nat)
    requires AllFromRight(cs) && (cs != [] ==> cs[0] != "")
    ensures RightToLeft(Slashed(cs), p) == (Slashed(KeptFromRight(cs, p).0), KeptFromRight(cs, p).1)
    decreases |cs|
  {
    if cs != [] {
      var front, c := cs[..|cs| - 1], cs[|cs| - 1];
      assert front + [c] == cs;
      RightToLeftByComponents(front, Pending(c, p));
      KeptStep(front, c, p);
      SlashedEnds(front);
      SlashedLast(front, c);
      hide RightToLeft, KeptFromRight, Slashed;
      ComponentStep(Slashed(front), c, p);
      SlashedLast(KeptFromRight(front, 0).0, c);
    }
  }

  /** What the pass keeps, put behind the directory without the left-over
      parents, is the resolved directory without the pending parents. */
  lemma {:induction false} KeptFromRightResolves(dir: seq<string>, cs: seq<string>, p: nat)
    ensures Drop(Resolve(dir, cs), p) == Drop(dir, KeptFromRight(cs, p).1) + KeptFromRight(cs, p).0
    decreases |cs|
  {
    if cs == [] {
      assert Drop(dir, p) + [] == Drop(dir, p);
    } else {
      var front, c := cs[..|cs| - 1], cs[|cs| - 1];
      var d := Resolve(dir, front);
      KeptFromRightResolves(dir, front, Pending(c, p));
      if c == ".." {
        DropDrop(d, 1, p);
      } else if c != "." && c != "" {
        var k := KeptFromRight(front, 0);
        assert Drop(d + [c], p) == if p > 0 then Drop(d, p - 1) else d + [c];
        assert Drop(dir, k.1) + k.0 + [c] == Drop(dir, k.1) + (k.0 + [c]);
      }
    }
  }

  /** What the pass makes of a name: the directory left so many times, and the rest. */
  function PathFromRight(dir: seq<string>, name: string): string {
    var (out, left) := RightToLeft(name, 0);
    Text(Drop(dir, left)) + out
  }

  lemma RightToLeftCopies(dir: seq<string>, name: string)
    requires Relative(name) && AllFromRight(Cut(name).0)
    ensures PathFromRight(dir, name) == Copied(dir, name)
  {
    var (cs, t) := Cut(name);
    RelativeStarts(cs, t);
    hide RightToLeft, Slashed, Text, Cut, Resolve;
    TailCopied(Slashed(cs), t, 0);
    RightToLeftByComponents(cs, 0);
    KeptFromRightResolves(dir, cs, 0);
    var (kept, left) := KeptFromRight(cs, 0);
    TextJoins(Drop(dir, left), kept, t);
  }

  /** A component that ends in a dot but is neither dot nor dot-dot loses that
      dot and its slash. */
  lemma EndingDotLost(s: string, c: string, p: nat) returns (u: string, q: nat)
    requires SlashFree(c) && !FromRight(c) && (s == "" || s[|s| - 1] == '/')
    ensures u != "" && u[|u| - 1] != '/'
    ensures RightToLeft(s + c + "/", p) == (RightToLeft(s, q).0 + u, RightToLeft(s, q).1)
  {
    hide RightToLeft;
    var n := |c|;
    assert n >= 2 && c[n - 1] == '.';
    if c[n - 2] == '.' {
      u, q := c[..n - 2], p + 1;
      assert n == 2 ==> c == "..";
      assert c == u + ".." && s + c + "/" == s + u + ".." + "/";
      TwoDotsSkipped(s + u, p);
    } else {
      u, q := c[..n - 1], p;
      assert c == u + "." && s + c + "/" == s + u + "." + "/";
      DotSkipped(s + u, p);
    }
    TailCopied(s, u, q);
  }

  /** The last component of such a name, and what is in front of it. */
  lemma LastOther(cs: seq<string>) returns (front: seq<string>, c: string)
    requires AllSlashFree(cs) && !AllFromRight(cs)
    ensures front + [c] == cs && |front| < |cs| && AllSlashFree(front) && SlashFree(c)
    ensures FromRight(c) ==> !AllFromRight(front) && front != []
  {
    front, c := cs[..|cs| - 1], cs[|cs| - 1];
    hide FromRight;
    assert forall i :: 0 <= i < |cs| && i != |front| ==> cs[i] == front[i];
  }

  /** So the result has a character other than a slash where the resolved path
      has a slash, in front of what both keep of the components behind it. */
  lemma {:induction false} Glued(cs: seq<string>, p: nat) returns (a: string, pre: seq<string>, kept: seq<string>)
    requires AllSlashFree(cs) && !AllFromRight(cs)
    ensures a != "" && a[|a| - 1] != '/'
    ensures RightToLeft(Slashed(cs), p).0 == a + Slashed(kept)
    ensures KeptFromRight(cs, p).0 == pre + kept
    decreases |cs|
  {
    hide *;
    var front, c := LastOther(cs);
    SlashedEnds(front);
    SlashedLast(front, c);
    KeptStep(front, c, p);
    if !FromRight(c) {
      var u, q := EndingDotLost(Slashed(front), c, p);
      a, pre, kept := RightToLeft(Slashed(front), q).0 + u, KeptFromRight(cs, p).0, [];
      assert Slashed([]) == "" by { SlashedLast([], ""); }
      assert a + "" == a && pre + [] == pre;
    } else {
      ComponentStep(Slashed(front), c, p);
      a, pre, kept := Glued(front, Pending(c, p));
      if !(c == "" || Dots(c) || p > 0) {
        SlashedLast(kept, c);
        Associative(pre, kept, [c]);
        Associative(a, Slashed(kept), c);
        Associative(a, Slashed(kept) + c, "/");
        kept := kept + [c];
      }
    }
  }

  /** Whatever is put in front of both, what the pass keeps of such a name is not the end of the path. */
  lemma GluedIsWrong(dir: seq<string>, name: string, before: string, ahead: string)
    requires !AllFromRight(Cut(name).0)
    ensures before + RightToLeft(name, 0).0 != ahead + Copied(dir, name)
  {
    var (cs, t) := Cut(name);
    hide RightToLeft, Cut, Resolve, AllFromRight, KeptFromRight, Slashed, Drop;
    var a, pre, kept := Glued(cs, 0);
    TailCopied(Slashed(cs), t, 0);
    KeptFromRightResolves(dir, cs, 0);
    assert Drop(Resolve(dir, cs), 0) == Resolve(dir, cs) by { DropNone(Resolve(dir, cs)); }
    var w := Drop(dir, KeptFromRight(cs, 0).1) + pre;
    Associative(Drop(dir, KeptFromRight(cs, 0).1), pre, kept);
    TextJoins(w, kept, t);
    TextEnds(w);
    Associative(a, Slashed(kept), t);
    Associative(before, a, Slashed(kept) + t);
    Associative(ahead, Text(w), Slashed(kept) + t);
    SameSuffix(before + a, ahead + Text(w), Slashed(kept) + t);
  }

  lemma DropNone(names: seq<string>)
    ensures Drop(names, 0) == names
  {
  }

  /** With the same characters behind them, texts that end differently differ. */
  lemma SameSuffix(x: string, y: string, z: string)
    requires x != "" && y != "" && x[|x| - 1] != y[|y| - 1]
    ensures x + z != y + z
  {
    assert |x| == |y| ==> (x + z)[|x| - 1] != (y + z)[|x| - 1];
  }

  /** A tail that is dot or dot-dot is copied, where the resolved path has a slash. */
  lemma DotsAreWrong(dir: seq<string>, name: string, before: string, ahead: string)
    requires Dots(Cut(name).1)
    ensures before + RightToLeft(name, 0).0 != ahead + Resolved(dir, name)
  {
    var (cs, t) := Cut(name);
    hide RightToLeft, Cut, Slashed, Resolved;
    ResolvedEnters(dir, name);
    TailCopied(Slashed(cs), t, 0);
    var out := RightToLeft(name, 0).0;
    assert out[|out| - 1] == t[|t| - 1];
    assert (before + out)[|before + out| - 1] == '.';
  }

  /** Neither kind of name gets the resolved path for its end. */
  lemma OthersAreWrong(dir: seq<string>, name: string, before: string, ahead: string)
    requires !AllFromRight(Cut(name).0) || Dots(Cut(name).1)
    ensures before + RightToLeft(name, 0).0 != ahead + Resolved(dir, name)
  {
    hide *;
    if Dots(Cut(name).1) {
      DotsAreWrong(dir, name, before, ahead);
    } else {
      ResolvedCopies(dir, name);
      GluedIsWrong(dir, name, before, ahead);
    }
  }

  /** The right-to-left pass resolves a relative name, in any directory, if and
      only if its tail is neither dot nor dot-dot and no component that is
      followed by a slash ends in a dot, dot and dot-dot aside. */
  lemma RightToLeftResolves(dir: seq<string>, name: string)
    requires Relative(name)
    ensures PathFromRight(dir, name) == Resolved(dir, name) <==>
              AllFromRight(Cut(name).0) && !Dots(Cut(name).1)
  {
    hide RightToLeft, Cut, Resolved, AllFromRight, Dots, Text;
    if AllFromRight(Cut(name).0) && !Dots(Cut(name).1) {
      RightToLeftCopies(dir, name);
      ResolvedCopies(dir, name);
    } else {
      OthersAreWrong(dir, name, Text(Drop(dir, RightToLeft(name, 0).1)), "");
      assert "" + Resolved(dir, name) == Resolved(dir, name);
    }
  }

  lemma LoneSlash(cs: seq<string>, p: nat)
    requires cs == [""]
    ensures RightToLeft(Slashed(cs), p) == if p == 0 then ("/", 0) else ("", p - 1)
    ensures KeptFromRight(cs, p) == ([], p)
  {
    SlashedLast([], "");
    var w := Slashed(cs);
    assert w == "/" && w[..0] == "" && cs[..0] == [] && "" + ['/'] == w;
    assert WithoutComponent("") == "";
  }

  lemma NothingSlashed()
    ensures Slashed([]) == "" && "/" + "" == "/"
  {
  }

  /** In front of an absolute name stands one more component, the empty one; it
      keeps its slash if no parents are left over, and takes one off otherwise. */
  lemma {:induction false} AbsoluteFromRight(cs: seq<string>, p: nat)
    requires AllFromRight(cs) && cs != [] && cs[0] == ""
    ensures var (k, u) := KeptFromRight(cs, p);
            RightToLeft(Slashed(cs), p) == if u == 0 then ("/" + Slashed(k), 0) else (Slashed(k), u - 1)
    decreases |cs|
  {
    hide RightToLeft, KeptFromRight, Slashed;
    var front, c := cs[..|cs| - 1], cs[|cs| - 1];
    assert front + [c] == cs;
    if front == [] {
      LoneSlash(cs, p);
      NothingSlashed();
    } else {
      AbsoluteFromRight(front, Pending(c, p));
      KeptStep(front, c, p);
      SlashedLast(front, c);
      SlashedEnds(front);
      ComponentStep(Slashed(front), c, p);
      var k := KeptFromRight(front, 0);
      SlashedLast(k.0, c);
      assert "/" + Slashed(k.0) + c + "/" == "/" + (Slashed(k.0) + c + "/");
    }
  }
}
