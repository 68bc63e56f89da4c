/** The pass of get_filename_cptrs over a name, from left to right with a stack. */
module LeftPass {
  import opened Sequences
  import opened PathText
  import opened RightPass

  // ----- Left to right, with a stack

  /** The end of the component that starts s, its slash included. */
  function FirstEnd(s: string): (e: nat)
    requires s != ""
    ensures 0 < e <= |s| && SlashFree(s[..e - 1]) && (s[e - 1] == '/' || e == |s|)
  {
    if s[0] == '/' || |s| == 1 then 1
    else
      var e := FirstEnd(s[1..]);
      assert s[..e] == [s[0]] + s[1..][..e - 1];
      e + 1
  }

  datatype Walk = Walk(stack: seq<string>, ups: nat) | Overrun

  /** The components the left-to-right pass has stacked at the end of s, and the
      parents it could not take off the stack.  A dot-dot at the very end makes
      the pass step over the terminator. */
  function LeftToRight(s: string, stack: seq<string>, ups: nat): Walk
    decreases |s|
  {
    if s == "" then Walk(stack, ups)
    else if s[0] == '.' && |s| > 1 && s[1] == '/' then LeftToRight(s[2..], stack, ups)
    else if s[0] == '.' && |s| > 1 && s[1] == '.' then
      if |s| < 3 then Overrun
      else if stack != [] then LeftToRight(s[3..], stack[..|stack| - 1], ups)
      else LeftToRight(s[3..], stack, ups + 1)
    else LeftToRight(s[FirstEnd(s)..], stack + [s[..FirstEnd(s)]], ups)
  }

  lemma LeftToRightStep(s: string, stack: seq<string>, ups: nat)
    requires s != ""
    ensures LeftToRight(s, stack, ups) ==
              if s[0] == '.' && |s| > 1 && s[1] == '/' then LeftToRight(s[2..], stack, ups)
              else if s[0] == '.' && |s| > 1 && s[1] == '.' then
                if |s| < 3 then Overrun
                else if stack != [] then LeftToRight(s[3..], stack[..|stack| - 1], ups)
                else LeftToRight(s[3..], stack, ups + 1)
              else LeftToRight(s[FirstEnd(s)..], stack + [s[..FirstEnd(s)]], ups)
  {
  }

  function Concat(ss: seq<string>): string {
    if ss == [] then "" else Concat(ss[..|ss| - 1]) + ss[|ss| - 1]
  }

  // ----- Names it is made for

  predicate LeadingDots(c: string) {
    |c| >= 2 && c[0] == '.' && c[1] == '.'
  }

  /** From the left, it must not be empty and not start with dot-dot, unless it is dot-dot. */
  predicate FromLeft(c: string) {
    c != "" && SlashFree(c) && (Dots(c) || !LeadingDots(c))
  }

  predicate AllFromLeft(cs: seq<string>) {
    forall i :: 0 <= i < |cs| ==> FromLeft(cs[i])
  }

  // ----- Component by component

  /** A stack of components, each with its slash. */
  function Stacked(names: seq<string>): seq<string> {
    seq(|names|, i requires 0 <= i < |names| => names[i] + "/")
  }

  lemma {:induction false} ConcatStacked(names: seq<string>)
    ensures Concat(Stacked(names)) == Slashed(names)
  {
    if names != [] {
      var front := names[..|names| - 1];
      ConcatStacked(front);
      assert Stacked(names)[..|names| - 1] == Stacked(front);
      assert Slashed(front) + names[|names| - 1] + "/" == Slashed(front) + (names[|names| - 1] + "/");
    }
  }

  lemma {:induction false} FirstEndOf(c: string, rest: string)
    requires SlashFree(c)
    ensures FirstEnd(c + "/" + rest) == |c| + 1
    decreases |c|
  {
    var s := c + "/" + rest;
    if |c| == 1 {
      assert s[1..] == "/" + rest;
    } else if |c| > 1 {
      FirstEndOf(c[1..], rest);
      assert s[1..] == c[1..] + "/" + rest;
    }
  }

  lemma {:induction false} FirstEndOfTail(t: string)
    requires t != "" && SlashFree(t)
    ensures FirstEnd(t) == |t|
    decreases |t|
  {
    if |t| > 1 {
      FirstEndOfTail(t[1..]);
    }
  }

  /** The left-to-right pass, component by component. */
  function KeptFromLeft(cs: seq<string>, kept: seq<string>, ups: nat): (seq<string>, nat)
    decreases |cs|
  {
    if cs == [] then (kept, ups)
    else if cs[0] == "" || cs[0] == "." then KeptFromLeft(cs[1..], kept, ups)
    else if cs[0] == ".." then
      if kept != [] then KeptFromLeft(cs[1..], kept[..|kept| - 1], ups) else KeptFromLeft(cs[1..], kept, ups + 1)
    else KeptFromLeft(cs[1..], kept + [cs[0]], ups)
  }

  lemma StackedEnds(kept: seq<string>, c: string)
    ensures Stacked(kept + [c]) == Stacked(kept) + [c + "/"]
    ensures kept != [] ==> Stacked(kept)[..|kept| - 1] == Stacked(kept[..|kept| - 1])
  {
  }

  /** One component with its slash, from the left. */
  lemma FirstStep(c: string, rest: string, stack: seq<string>, ups: nat)
    requires FromLeft(c)
    ensures LeftToRight(c + "/" + rest, stack, ups) ==
              if c == "." then LeftToRight(rest, stack, ups)
              else if c == ".." then
                if stack != [] then LeftToRight(rest, stack[..|stack| - 1], ups) else LeftToRight(rest, stack, ups + 1)
              else LeftToRight(rest, stack + [c + "/"], ups)
  {
    var s := c + "/" + rest;
    if c == "." {
      assert s[2..] == rest;
    } else if c == ".." {
      assert s[3..] == rest;
    } else {
      FirstEndOf(c, rest);
      assert s[..|c| + 1] == c + "/" && s[|c| + 1..] == rest;
      assert s[0] == c[0] && s[1] == (if |c| > 1 then c[1] else '/');
    }
  }

  lemma {:induction false} LeftToRightByComponents(cs: seq<string>, t: string, kept: seq<string>, ups: nat)
    requires AllFromLeft(cs) && SlashFree(t) && !LeadingDots(t)
    ensures var (k, u) := KeptFromLeft(cs, kept, ups);
            LeftToRight(Slashed(cs) + t, Stacked(kept), ups) ==
              Walk.Walk(Stacked(k) + (if t == "" then [] else [t]), u)
    decreases |cs|
  {
    if cs == [] {
      assert Slashed(cs) + t == t;
      if t == "" {
        assert Stacked(kept) + [] == Stacked(kept);
      } else {
        FirstEndOfTail(t);
        assert t[..|t|] == t && t[|t|..] == "";
      }
    } else {
      var c, rest := cs[0], Slashed(cs[1..]) + t;
      SlashedPrepend(c, cs[1..]);
      assert [c] + cs[1..] == cs;
      Associative(c + "/", Slashed(cs[1..]), t);
      FirstStep(c, rest, Stacked(kept), ups);
      StackedEnds(kept, c);
      hide LeftToRight;
      if c == "." {
        LeftToRightByComponents(cs[1..], t, kept, ups);
      } else if c == ".." {
        LeftToRightByComponents(cs[1..], t, if kept != [] then kept[..|kept| - 1] else kept,
                                if kept != [] then ups else ups + 1);
      } else {
        LeftToRightByComponents(cs[1..], t, kept + [c], ups);
      }
    }
  }

  /** What the stack holds, behind the directory without the parents left over,
      is the resolved directory. */
  lemma {:induction false} KeptFromLeftResolves(dir: seq<string>, cs: seq<string>, kept: seq<string>, ups: nat)
    ensures var (k, u) := KeptFromLeft(cs, kept, ups);
            Resolve(Drop(dir, ups) + kept, cs) == Drop(dir, u) + k
    decreases |cs|
  {
    if cs != [] {
      var c, d := cs[0], Drop(dir, ups);
      assert [c] + cs[1..] == cs;
      ResolveFirst(d + kept, c, cs[1..]);
      if c == "" || c == "." {
        KeptFromLeftResolves(dir, cs[1..], kept, ups);
      } else if c == ".." {
        if kept != [] {
          assert Drop(d + kept, 1) == d + kept[..|kept| - 1];
          KeptFromLeftResolves(dir, cs[1..], kept[..|kept| - 1], ups);
        } else {
          assert d + kept == d && Drop(d, 1) + kept == Drop(d, 1);
          DropDrop(dir, ups, 1);
          KeptFromLeftResolves(dir, cs[1..], kept, ups + 1);
        }
      } else {
        assert (d + kept) + [c] == d + (kept + [c]);
        KeptFromLeftResolves(dir, cs[1..], kept + [c], ups);
      }
    }
  }

  lemma LeftToRightStack(cs: seq<string>, t: string) returns (k: (seq<string>, nat))
    requires AllFromLeft(cs) && SlashFree(t) && !LeadingDots(t)
    ensures k == KeptFromLeft(cs, [], 0)
    ensures var w := LeftToRight(Slashed(cs) + t, [], 0);
            w.Walk? && w.ups == k.1 && Concat(w.stack) == Slashed(k.0) + t
  {
    k := KeptFromLeft(cs, [], 0);
    assert Stacked([]) == [];
    LeftToRightByComponents(cs, t, [], 0);
    hide LeftToRight, KeptFromLeft;
    ConcatStacked(k.0);
    if t == "" {
      assert Stacked(k.0) + [] == Stacked(k.0);
    } else {
      assert (Stacked(k.0) + [t])[..|k.0|] == Stacked(k.0);
    }
  }

  lemma {:induction false} KeptFromLeftLast(cs: seq<string>, c: string, kept: seq<string>, ups: nat)
    ensures var (k, u) := KeptFromLeft(cs, kept, ups);
            KeptFromLeft(cs + [c], kept, ups) ==
              if c == "" || c == "." then (k, u)
              else if c == ".." then (if k != [] then (k[..|k| - 1], u) else (k, u + 1))
              else (k + [c], u)
    decreases |cs|
  {
    if cs == [] {
      assert ([] + [c])[1..] == [];
    } else {
      assert (cs + [c])[1..] == cs[1..] + [c];
      if cs[0] == "" || cs[0] == "." {
        KeptFromLeftLast(cs[1..], c, kept, ups);
      } else if cs[0] == ".." {
        KeptFromLeftLast(cs[1..], c, if kept != [] then kept[..|kept| - 1] else kept,
                         if kept != [] then ups else ups + 1);
      } else {
        KeptFromLeftLast(cs[1..], c, kept + [cs[0]], ups);
      }
    }
  }

  /** k without its last p entries, and how many more were to go. */
  function TakeOff(k: seq<string>, u: nat, p: nat): (seq<string>, nat) {
    if p <= |k| then (k[..|k| - p], u) else ([], u + (p - |k|))
  }

  lemma TakeOffLast(k: seq<string>, u: nat, c: string, p: nat)
    ensures TakeOff(k + [c], u, 0) == (TakeOff(k, u, 0).0 + [c], u)
    ensures TakeOff(k + [c], u, p + 1) == TakeOff(k, u, p)
    ensures k != [] ==> TakeOff(k[..|k| - 1], u, p) == TakeOff(k, u, p + 1)
    ensures k == [] ==> TakeOff(k, u + 1, p) == TakeOff(k, u, p + 1)
  {
    assert (k + [c])[..|k| + 1] == k + [c] && k[..|k|] == k;
    if p <= |k| {
      assert (k + [c])[..|k| - p] == k[..|k| - p];
    }
    if p < |k| {
      assert k[..|k| - 1][..|k| - 1 - p] == k[..|k| - (p + 1)];
    }
  }

  /** From the right with p pending parents is from the left with p more taken off. */
  lemma {:induction false} KeptEitherWay(cs: seq<string>, p: nat)
    ensures var (k, u) := KeptFromLeft(cs, [], 0);
            KeptFromRight(cs, p) == TakeOff(k, u, p)
    decreases |cs|
  {
    if cs != [] {
      hide KeptFromLeft, KeptFromRight, TakeOff;
      var front, c := cs[..|cs| - 1], cs[|cs| - 1];
      assert front + [c] == cs;
      KeptFromLeftLast(front, c, [], 0);
      KeptStep(front, c, p);
      KeptEitherWay(front, Pending(c, p));
      var (k, u) := KeptFromLeft(front, [], 0);
      TakeOffLast(k, u, c, if p > 0 && c != ".." then p - 1 else p);
    }
  }

  /** Both passes keep the same text and leave the same number of parents of a
      name that both are made for. */
  lemma PassesAgree(name: string)
    requires AllFromRight(Cut(name).0) && AllFromLeft(Cut(name).0) && !LeadingDots(Cut(name).1)
    ensures var w := LeftToRight(name, [], 0);
            w.Walk? && RightToLeft(name, 0) == (Concat(w.stack), w.ups)
  {
    var (cs, t) := Cut(name);
    hide RightToLeft, LeftToRight, Cut, Slashed;
    TailCopied(Slashed(cs), t, 0);
    RightToLeftByComponents(cs, 0);
    var k := LeftToRightStack(cs, t);
    KeptEitherWay(cs, 0);
    assert k.0[..|k.0|] == k.0;
  }

  // ----- Stepping over the end

  /** Groups of three characters that start with two dots, and two dots at the end. */
  predicate StepsOver(t: string) {
    t == ".." || (|t| > 3 && LeadingDots(t) && StepsOver(t[3..]))
  }

  lemma NoTail(x: string)
    requires x != "" && x[|x| - 1] == '/'
    ensures Cut(x).1 == ""
  {
  }

  /** The tail of a name does not depend on a beginning that was read up to a slash. */
  lemma TailStays(s: string, e: nat)
    requires 0 < e <= |s| && s[e - 1] == '/'
    ensures Cut(s[e..]).1 == Cut(s).1
  {
    hide *;
    var x, y := s[..e], s[e..];
    assert x + y == s;
    NoTail(x);
    TailAfter(x, y);
    if SlashFree(y) {
      TailOfSlashFree(y);
      assert Cut(x).1 + y == y;
    }
  }

  lemma TailOfSlashFree(s: string)
    requires SlashFree(s)
    ensures Cut(s).1 == s
  {
    var none := "";
    assert Cut(none).1 == none;
    hide Cut;
    TailAfter(none, s);
    assert none + s == s;
  }

  /** A group of three without a slash is skipped together with its share of the tail. */
  lemma TailOfGroup(s: string)
    requires |s| >= 3 && LeadingDots(s)
    ensures StepsOver(Cut(s[3..]).1) == StepsOver(Cut(s).1)
  {
    hide Cut;
    if s[2] == '/' {
      TailStays(s, 3);
    } else {
      var x, y := s[..3], s[3..];
      assert x + y == s && SlashFree(x);
      TailAfter(x, y);
      TailOfSlashFree(x);
      if SlashFree(y) {
        TailOfSlashFree(y);
      }
    }
  }

  lemma TailOfComponent(s: string)
    requires s != "" && !LeadingDots(s)
    ensures StepsOver(Cut(s[FirstEnd(s)..]).1) == StepsOver(Cut(s).1)
  {
    var e := FirstEnd(s);
    if s[e - 1] == '/' {
      TailStays(s, e);
    } else {
      assert s[..e - 1] + [s[e - 1]] == s && SlashFree(s);
      TailOfSlashFree(s);
      assert s[e..] == "" && Cut("").1 == "";
    }
  }

  /** The pass steps over the terminator if and only if the tail is like that. */
  lemma {:induction false} OverrunExactly(s: string, stack: seq<string>, ups: nat)
    ensures LeftToRight(s, stack, ups) == Overrun <==> StepsOver(Cut(s).1)
    decreases |s|
  {
    if s != "" {
      LeftToRightStep(s, stack, ups);
      if s[0] == '.' && |s| > 1 && s[1] == '/' {
        OverrunExactly(s[2..], stack, ups);
        TailStays(s, 2);
      } else if LeadingDots(s) {
        if |s| < 3 {
          assert s == "..";
          TailOfSlashFree(s);
        } else {
          OverrunExactly(s[3..], if stack != [] then stack[..|stack| - 1] else stack,
                         if stack != [] then ups else ups + 1);
          TailOfGroup(s);
        }
      } else {
        OverrunExactly(s[FirstEnd(s)..], stack + [s[..FirstEnd(s)]], ups);
        TailOfComponent(s);
      }
    }
  }

  /** The plainest such name. */
  lemma DotDotIsOverrun()
    ensures LeftToRight("..", [], 0) == Overrun
  {
  }

  // ----- When the pass is right

  function Slashes(s: string): nat {
    if s == "" then 0 else Slashes(s[..|s| - 1]) + (if s[|s| - 1] == '/' then 1 else 0)
  }

  lemma {:induction false} SlashesConcat(x: string, y: string)
    ensures Slashes(x + y) == Slashes(x) + Slashes(y)
  {
    if y == "" {
      assert x + y == x;
    } else {
      SlashesConcat(x, y[..|y| - 1]);
      assert (x + y)[..|x + y| - 1] == x + y[..|y| - 1];
    }
  }

  lemma {:induction false} NoSlashes(s: string)
    requires SlashFree(s)
    ensures Slashes(s) == 0
  {
    if s != "" { NoSlashes(s[..|s| - 1]); }
  }

  lemma OneSlash(c: string)
    requires SlashFree(c)
    ensures Slashes(c + "/") == 1
  {
    NoSlashes(c);
    assert (c + "/")[..|c|] == c;
  }

  predicate OneSlashEach(stack: seq<string>) {
    forall i :: 0 <= i < |stack| ==> Slashes(stack[i]) == 1
  }

  lemma {:induction false} SlashesOfStack(stack: seq<string>)
    requires OneSlashEach(stack)
    ensures Slashes(Concat(stack)) == |stack|
  {
    if stack != [] {
      SlashesOfStack(stack[..|stack| - 1]);
      SlashesConcat(Concat(stack[..|stack| - 1]), stack[|stack| - 1]);
    }
  }

  lemma {:induction false} SlashesOfSlashed(names: seq<string>)
    requires AllSlashFree(names)
    ensures Slashes(Slashed(names)) == |names| && Slashes(Text(names)) == |names| + 1
  {
    hide Slashes;
    if names != [] {
      var front, c := names[..|names| - 1], names[|names| - 1];
      SlashesOfSlashed(front);
      OneSlash(c);
      SlashesConcat(Slashed(front), c + "/");
      assert Slashed(names) == Slashed(front) + (c + "/");
    }
    assert Slashes("/") == 1 by { OneSlash(""); assert "" + "/" == "/"; }
    assert Slashes("") == 0 by { NoSlashes(""); }
    SlashesConcat("/", Slashed(names));
  }

  /** How many levels further down a component leads, as the pass reads it. */
  function Effect(c: string): int {
    if c == "" then 1
    else if c == "." then 0
    else if c == ".." then -1
    else if LeadingDots(c) then Effect(c[3..]) - 1
    else 1
  }

  /** And as it is meant. */
  function Meant(c: string): int {
    if c == "" || c == "." then 0 else if c == ".." then -1 else 1
  }

  lemma {:induction false} EffectAtMostMeant(c: string)
    requires SlashFree(c) && c != ""
    ensures Effect(c) <= Meant(c) <= 1 && (Effect(c) == Meant(c) <==> FromLeft(c))
  {
    if LeadingDots(c) && |c| > 3 { EffectAtMostMeant(c[3..]); }
  }

  function TotalEffect(cs: seq<string>): int {
    if cs == [] then 0 else Effect(cs[0]) + TotalEffect(cs[1..])
  }

  function TotalMeant(cs: seq<string>): int {
    if cs == [] then 0 else Meant(cs[0]) + TotalMeant(cs[1..])
  }

  lemma {:induction false} TotalAtMostMeant(cs: seq<string>)
    requires AllSlashFree(cs) && "" !in cs
    ensures TotalEffect(cs) <= TotalMeant(cs) && (TotalEffect(cs) == TotalMeant(cs) <==> AllFromLeft(cs))
    decreases |cs|
  {
    hide Effect, Meant, FromLeft;
    if cs != [] {
      TotalAtMostMeant(cs[1..]);
      EffectAtMostMeant(cs[0]);
      assert AllFromLeft(cs) <==> FromLeft(cs[0]) && AllFromLeft(cs[1..]) by {
        assert forall i :: 0 < i < |cs| ==> cs[i] == cs[1..][i - 1];
      }
    }
  }

  function TailEffect(t: string): int {
    if LeadingDots(t) && |t| >= 3 then TailEffect(t[3..]) - 1 else 0
  }

  lemma {:induction false} TailEffectNegative(t: string)
    ensures TailEffect(t) <= 0 && (|t| >= 3 && LeadingDots(t) ==> TailEffect(t) < 0)
  {
    if LeadingDots(t) && |t| >= 3 { TailEffectNegative(t[3..]); }
  }

  lemma {:induction false} ComponentEffect(c: string, rest: string, stack: seq<string>, ups: nat)
    returns (stack': seq<string>, ups': nat)
    requires SlashFree(c) && OneSlashEach(stack)
    ensures LeftToRight(c + "/" + rest, stack, ups) == LeftToRight(rest, stack', ups')
    ensures OneSlashEach(stack') && |stack'| - ups' == |stack| - ups + Effect(c)
    decreases |c|
  {
    hide LeftToRight, Slashes, FirstEnd;
    var s := c + "/" + rest;
    LeftToRightStep(s, stack, ups);
    stack', ups' := stack, ups;
    if c == "." {
      assert s[2..] == rest;
    } else if LeadingDots(c) {
      if stack != [] { stack' := stack[..|stack| - 1]; } else { ups' := ups + 1; }
      if c == ".." {
        assert s[3..] == rest;
      } else {
        assert s[3..] == c[3..] + "/" + rest;
        stack', ups' := ComponentEffect(c[3..], rest, stack', ups');
      }
    } else {
      FirstEndOf(c, rest);
      assert s[..|c| + 1] == c + "/" && s[|c| + 1..] == rest;
      assert s[0] == (if c == "" then '/' else c[0]) && (|c| > 1 ==> s[1] == c[1]);
      OneSlash(c);
      stack' := stack + [c + "/"];
    }
  }

  lemma {:induction false} TailLevel(t: string, stack: seq<string>, ups: nat)
    requires SlashFree(t) && OneSlashEach(stack)
    ensures var w := LeftToRight(t, stack, ups);
            w.Walk? ==> Slashes(Concat(w.stack)) - w.ups == |stack| - ups + TailEffect(t)
    decreases |t|
  {
    if t == "" {
      SlashesOfStack(stack);
    } else if LeadingDots(t) {
      LeftToRightStep(t, stack, ups);
      hide LeftToRight, Slashes, Concat;
      if |t| >= 3 {
        TailLevel(t[3..], if stack != [] then stack[..|stack| - 1] else stack, if stack != [] then ups else ups + 1);
      }
    } else {
      FirstEndOfTail(t);
      assert t[..|t|] == t && t[|t|..] == "";
      NoSlashes(t);
      assert (stack + [t])[..|stack|] == stack;
      SlashesOfStack(stack);
      hide Slashes;
      SlashesConcat(Concat(stack), t);
    }
  }

  lemma {:induction false} NameLevel(cs: seq<string>, t: string, stack: seq<string>, ups: nat)
    requires AllSlashFree(cs) && SlashFree(t) && OneSlashEach(stack)
    ensures var w := LeftToRight(Slashed(cs) + t, stack, ups);
            w.Walk? ==> Slashes(Concat(w.stack)) - w.ups == |stack| - ups + TotalEffect(cs) + TailEffect(t)
    decreases |cs|
  {
    hide LeftToRight, Slashes, Concat, Effect;
    if cs == [] {
      assert Slashed(cs) + t == t;
      TailLevel(t, stack, ups);
    } else {
      var c, rest := cs[0], Slashed(cs[1..]) + t;
      SlashedPrepend(c, cs[1..]);
      assert [c] + cs[1..] == cs;
      Associative(c + "/", Slashed(cs[1..]), t);
      var stack', ups' := ComponentEffect(c, rest, stack, ups);
      NameLevel(cs[1..], t, stack', ups');
    }
  }

  lemma {:induction false} KeptLevel(cs: seq<string>, kept: seq<string>, ups: nat)
    requires AllSlashFree(cs) && AllSlashFree(kept)
    ensures var (k, u) := KeptFromLeft(cs, kept, ups);
            AllSlashFree(k) && |k| - u == |kept| - ups + TotalMeant(cs)
    decreases |cs|
  {
    if cs != [] {
      if cs[0] == "" || cs[0] == "." {
        KeptLevel(cs[1..], kept, ups);
      } else if cs[0] == ".." {
        KeptLevel(cs[1..], if kept != [] then kept[..|kept| - 1] else kept, if kept != [] then ups else ups + 1);
      } else {
        KeptLevel(cs[1..], kept + [cs[0]], ups);
      }
    }
  }

  /** What the pass makes of a name, if it does not step over its end. */
  function PathFromLeft(dir: seq<string>, name: string): Option<string> {
    match LeftToRight(name, [], 0)
    case Walk(stack, ups) => Some(Text(Drop(dir, ups)) + Concat(stack))
    case Overrun => None
  }

  lemma LeftToRightCopies(dir: seq<string>, name: string)
    requires AllFromLeft(Cut(name).0) && !LeadingDots(Cut(name).1)
    ensures PathFromLeft(dir, name) == Some(Copied(dir, name))
  {
    var (cs, t) := Cut(name);
    hide LeftToRight, Cut, KeptFromLeft, Slashed;
    var k := LeftToRightStack(cs, t);
    KeptFromLeftResolves(dir, cs, [], 0);
    assert Drop(dir, 0) + [] == dir;
    TextJoins(Drop(dir, k.1), k.0, t);
  }

  /** A directory n levels below the root in which every name is a. */
  function Deep(a: char, n: nat): seq<string> {
    if n == 0 then [] else Deep(a, n - 1) + [[a]]
  }

  lemma {:induction false} DeepDrops(a: char, n: nat, p: nat)
    requires p <= n
    ensures |Deep(a, n)| == n && Drop(Deep(a, n), p) == Deep(a, n - p)
    decreases p, n
  {
    if p > 0 {
      DeepDrops(a, n - 1, p - 1);
      assert Drop(Deep(a, n), 1) == Deep(a, n - 1) by { DeepDrops(a, n - 1, 0); }
      DropDrop(Deep(a, n), 1, p - 1);
    } else if n > 0 {
      DeepDrops(a, n - 1, 0);
    }
  }

  lemma {:induction false} DeepText(a: char, n: nat, m: nat)
    requires m <= n
    ensures |Text(Deep(a, n))| == 1 + 2 * n
    ensures m < n ==> Text(Deep(a, n))[1 + 2 * m] == a
    decreases n
  {
    if n == 0 {
      NothingSlashed();
    } else {
      DeepText(a, n - 1, if m < n - 1 then m else n - 1);
      hide Text, Slashed;
      var front := Deep(a, n - 1);
      TextLast(front, [a]);
      assert Deep(a, n) == front + [[a]];
      var s := Text(front);
      assert Text(Deep(a, n)) == s + [a, '/'] by { assert s + [a] + "/" == s + [a, '/']; }
      assert m < n - 1 ==> (s + [a, '/'])[1 + 2 * m] == s[1 + 2 * m];
    }
  }

  /** Behind two directories that share no name, the same texts follow only
      where both are left equally often. */
  lemma SameRest(n: nat, p: nat, q: nat, x: string, y: string)
    requires p < n && q < n
    requires forall a {:trigger Deep(a, n)} :: a == 'x' || a == 'y' ==>
               Text(Drop(Deep(a, n), p)) + x == Text(Drop(Deep(a, n), q)) + y
    ensures p == q && x == y
  {
    hide Deep, Text, Drop;
    SameRestOf('x', n, p, q, x, y);
    SameRestOf('y', n, p, q, x, y);
  }

  lemma SameRestOf(a: char, n: nat, p: nat, q: nat, x: string, y: string)
    requires p < n && q < n && Text(Drop(Deep(a, n), p)) + x == Text(Drop(Deep(a, n), q)) + y
    ensures p < q ==> y != "" && y[0] == a
    ensures q < p ==> x != "" && x[0] == a
    ensures p == q ==> x == y
  {
    hide Deep, Text, Drop;
    DeepDrops(a, n, p);
    DeepDrops(a, n, q);
    DeepText(a, n - p, if p < q then n - q else 0);
    DeepText(a, n - q, if q < p then n - p else 0);
    var s, t := Text(Deep(a, n - p)), Text(Deep(a, n - q));
    if p < q {
      assert (s + x)[|t|] == s[|t|] && (t + y)[|t|] == y[0];
    } else if q < p {
      assert (t + y)[|s|] == t[|s|] && (s + x)[|s|] == x[0];
    } else {
      assert (s + x)[|s|..] == x && (t + y)[|t|..] == y;
    }
  }

  /** At its end the pass has stacked what spells the components that are kept
      and the tail, and counts the parents that are left over. */
  predicate EndsRight(name: string) {
    var w, (cs, t) := LeftToRight(name, [], 0), Cut(name);
    var (k, u) := KeptFromLeft(cs, [], 0);
    w.Walk? && w.ups == u && Concat(w.stack) == Slashed(k) + t
  }

  /** What the path should be, by the components that are kept. */
  lemma CopiedKeeps(dir: seq<string>, name: string)
    ensures var (cs, t) := Cut(name);
            var (k, u) := KeptFromLeft(cs, [], 0);
            Copied(dir, name) == Text(Drop(dir, u)) + (Slashed(k) + t)
  {
    hide Cut, KeptFromLeft, Slashed, Text, Drop, Resolve;
    var (cs, t) := Cut(name);
    var (k, u) := KeptFromLeft(cs, [], 0);
    KeptFromLeftResolves(dir, cs, [], 0);
    DropNone(dir);
    assert dir + [] == dir;
    TextJoins(Drop(dir, u), k, t);
  }

  lemma WalkedPath(dir: seq<string>, name: string)
    ensures var w := LeftToRight(name, [], 0);
            PathFromLeft(dir, name) == if w.Walk? then Some(Text(Drop(dir, w.ups)) + Concat(w.stack)) else None
  {
  }

  /** For every name: all directories below the root agree on whether the path
      is right, and it is if and only if the pass ends right. */
  lemma RightEverywhere(name: string)
    ensures (forall dir :: dir != [] ==> PathFromLeft(dir, name) == Some(Resolved(dir, name))) <==>
              EndsRight(name) && !Dots(Cut(name).1)
    ensures EndsRight(name) && !Dots(Cut(name).1) ==>
              forall dir :: PathFromLeft(dir, name) == Some(Resolved(dir, name))
  {
    hide LeftToRight, Cut, Resolved, PathFromLeft, Concat, KeptFromLeft, Deep, Dots, Text, Drop, Slashed, Copied;
    if EndsRight(name) && !Dots(Cut(name).1) {
      forall dir ensures PathFromLeft(dir, name) == Some(Resolved(dir, name)) {
        WalkedPath(dir, name);
        CopiedKeeps(dir, name);
        ResolvedCopies(dir, name);
      }
    }
    if forall dir :: dir != [] ==> PathFromLeft(dir, name) == Some(Resolved(dir, name)) {
      RightBelow(name);
    }
  }

  lemma RightBelow(name: string)
    requires forall dir :: dir != [] ==> PathFromLeft(dir, name) == Some(Resolved(dir, name))
    ensures EndsRight(name) && !Dots(Cut(name).1)
  {
    hide LeftToRight, Cut, Resolved, PathFromLeft, Concat, KeptFromLeft, Deep, Dots, Text, Drop, Slashed, Copied;
    var (cs, t) := Cut(name);
    var (k, u) := KeptFromLeft(cs, [], 0);
    var one := Deep('x', 1);
    DeepDrops('x', 1, 0);
    if Dots(t) {
      DotsFromLeft(one, name);
      assert false;
    }
    WalkedPath(one, name);
    var w := LeftToRight(name, [], 0);
    var n := w.ups + u + 1;
    forall a ensures Text(Drop(Deep(a, n), w.ups)) + Concat(w.stack) == Text(Drop(Deep(a, n), u)) + (Slashed(k) + t) {
      DeepDrops(a, n, 0);
      WalkedPath(Deep(a, n), name);
      CopiedKeeps(Deep(a, n), name);
      ResolvedCopies(Deep(a, n), name);
    }
    SameRest(n, w.ups, u, Concat(w.stack), Slashed(k) + t);
  }

  lemma RightLevelsOnly(name: string)
    requires "" !in Cut(name).0
    requires var w := LeftToRight(name, [], 0);
             w.Walk? && Slashes(Concat(w.stack)) - w.ups == TotalMeant(Cut(name).0)
    ensures AllFromLeft(Cut(name).0) && !LeadingDots(Cut(name).1)
  {
    hide LeftToRight, Cut, Slashes, Concat, TotalEffect, TotalMeant, TailEffect, AllFromLeft, FromLeft;
    var (cs, t) := Cut(name);
    assert |t| == 2 && LeadingDots(t) ==> t == "..";
    NameLevel(cs, t, [], 0);
    TotalAtMostMeant(cs);
    TailEffectNegative(t);
    OverrunExactly(name, [], 0);
  }

  /** A tail that is a dot stays on the stack. */
  lemma {:induction false} DotStacked(cs: seq<string>, stack: seq<string>, ups: nat)
    requires AllSlashFree(cs) && OneSlashEach(stack)
    ensures var w := LeftToRight(Slashed(cs) + ".", stack, ups);
            w.Walk? && w.stack != [] && w.stack[|w.stack| - 1] == "."
    decreases |cs|
  {
    hide LeftToRight, Slashed, Effect, Slashes;
    if cs == [] {
      LoneDot(stack, ups);
    } else {
      var c, rest := cs[0], Slashed(cs[1..]) + ".";
      SlashedPrepend(c, cs[1..]);
      assert [c] + cs[1..] == cs;
      Associative(c + "/", Slashed(cs[1..]), ".");
      var stack', ups' := ComponentEffect(c, rest, stack, ups);
      DotStacked(cs[1..], stack', ups');
    }
  }

  lemma LoneDot(stack: seq<string>, ups: nat)
    ensures LeftToRight(Slashed([]) + ".", stack, ups) == Walk.Walk(stack + ["."], ups)
  {
    NothingSlashed();
    hide *;
    var none, dot := Slashed([]), ".";
    assert none + dot == ['.'];
    LastStep('.', stack, ups);
  }

  /** So neither dot nor dot-dot as a tail gives the resolved path. */
  lemma DotsFromLeft(dir: seq<string>, name: string)
    requires Dots(Cut(name).1)
    ensures PathFromLeft(dir, name) != Some(Resolved(dir, name))
  {
    var (cs, t) := Cut(name);
    hide LeftToRight, Cut, Slashed, Resolved, Slashes;
    if t == ".." {
      OverrunExactly(name, [], 0);
    } else {
      ResolvedEnters(dir, name);
      DotStacked(cs, [], 0);
      var w := LeftToRight(name, [], 0);
      assert Concat(w.stack) == Concat(w.stack[..|w.stack| - 1]) + ".";
      var path := Text(Drop(dir, w.ups)) + Concat(w.stack);
      assert path[|path| - 1] == '.';
    }
  }

  /** Names that keep clear of two dots in front and of dots at the end. */
  predicate MadeForLeft(name: string) {
    AllFromLeft(Cut(name).0) && !LeadingDots(Cut(name).1) && Cut(name).1 != "."
  }

  /** A pass that ends right ends at the right level. */
  lemma RightLevel(name: string)
    requires EndsRight(name)
    ensures var w := LeftToRight(name, [], 0);
            w.Walk? && Slashes(Concat(w.stack)) - w.ups == TotalMeant(Cut(name).0)
  {
    hide LeftToRight, Cut, Slashes, Concat, TotalMeant, KeptFromLeft, Slashed;
    var (cs, t) := Cut(name);
    var (k, u) := KeptFromLeft(cs, [], 0);
    NoNames();
    KeptLevel(cs, [], 0);
    SlashesOfSlashed(k);
    SlashesConcat(Slashed(k), t);
    NoSlashes(t);
  }

  lemma NoNames()
    ensures AllSlashFree([])
  {
  }

  /** Of the names without empty components the left-to-right pass resolves, in
      every directory, exactly those whose tail is no dot and in which neither
      the tail nor a component, dot-dot aside, starts with two dots. */
  lemma LeftToRightResolves(name: string)
    requires "" !in Cut(name).0
    ensures MadeForLeft(name) ==> forall dir :: PathFromLeft(dir, name) == Some(Resolved(dir, name))
    ensures (forall dir :: dir != [] ==> PathFromLeft(dir, name) == Some(Resolved(dir, name))) ==> MadeForLeft(name)
  {
    hide LeftToRight, Cut, Resolved, PathFromLeft, Slashes, Concat, TotalMeant, AllFromLeft, LeadingDots;
    if MadeForLeft(name) {
      forall dir ensures PathFromLeft(dir, name) == Some(Resolved(dir, name)) {
        assert !Dots(Cut(name).1) by { NoLeadingDots(Cut(name).1); }
        LeftToRightCopies(dir, name);
        ResolvedCopies(dir, name);
      }
    } else if forall dir :: dir != [] ==> PathFromLeft(dir, name) == Some(Resolved(dir, name)) {
      RightEverywhere(name);
      RightLevel(name);
      RightLevelsOnly(name);
      assert false;
    }
  }

  lemma NoLeadingDots(t: string)
    ensures !LeadingDots(t) ==> t != ".."
  {
  }

  predicate EmptyOrFromLeft(cs: seq<string>) {
    forall i :: 0 <= i < |cs| ==> cs[i] == "" || FromLeft(cs[i])
  }

  lemma {:induction false} TotalAtLeastMeant(cs: seq<string>)
    requires EmptyOrFromLeft(cs)
    ensures TotalEffect(cs) >= TotalMeant(cs) && (TotalEffect(cs) == TotalMeant(cs) <==> "" !in cs)
    decreases |cs|
  {
    if cs != [] {
      TotalAtLeastMeant(cs[1..]);
      assert cs == [cs[0]] + cs[1..];
      if cs[0] != "" { EffectAtMostMeant(cs[0]); }
    }
  }

  /** Where no component or tail starts like that, an empty component is what it gets wrong. */
  lemma EmptyIsWrong(name: string)
    requires EmptyOrFromLeft(Cut(name).0) && !LeadingDots(Cut(name).1) && Cut(name).1 != "."
    ensures (forall dir :: dir != [] ==> PathFromLeft(dir, name) == Some(Resolved(dir, name))) <==>
              "" !in Cut(name).0
  {
    hide LeftToRight, Cut, Resolved, PathFromLeft, Slashes, Concat, TotalEffect, TotalMeant;
    var (cs, t) := Cut(name);
    if "" !in cs {
      assert AllFromLeft(cs);
      LeftToRightResolves(name);
    } else if forall dir :: dir != [] ==> PathFromLeft(dir, name) == Some(Resolved(dir, name)) {
      RightEverywhere(name);
      RightLevel(name);
      NameLevel(cs, t, [], 0);
      TotalAtLeastMeant(cs);
      assert false;
    }
  }

  // ----- Names spelled out

  /** The cases of a round for short components. */
  lemma PlainStep(a: char, rest: string, stack: seq<string>, ups: nat)
    requires a != '/' && a != '.'
    ensures LeftToRight([a, '/'] + rest, stack, ups) == LeftToRight(rest, stack + [[a, '/']], ups)
  {
    hide LeftToRight;
    FirstStep([a], rest, stack, ups);
    assert [a] + "/" == [a, '/'];
  }

  lemma EmptyStep(rest: string, stack: seq<string>, ups: nat)
    ensures LeftToRight(['/'] + rest, stack, ups) == LeftToRight(rest, stack + [['/']], ups)
  {
    var s := ['/'] + rest;
    assert FirstEnd(s) == 1 && s[1..] == rest && s[..1] == ['/'];
    hide FirstEnd, LeftToRight;
    LeftToRightStep(s, stack, ups);
  }

  lemma DotsStep(x: char, rest: string, stack: seq<string>, ups: nat)
    ensures LeftToRight(['.', '.', x] + rest, stack, ups) ==
              if stack != [] then LeftToRight(rest, stack[..|stack| - 1], ups) else LeftToRight(rest, stack, ups + 1)
  {
    hide FirstEnd, LeftToRight;
    var s := ['.', '.', x] + rest;
    assert s[3..] == rest;
    LeftToRightStep(s, stack, ups);
  }

  lemma LastStep(c: char, stack: seq<string>, ups: nat)
    requires c != '/'
    ensures LeftToRight([c], stack, ups) == Walk.Walk(stack + [[c]], ups)
  {
    var t := [c];
    assert FirstEnd(t) == 1 && t[..1] == t && t[1..] == "";
    hide FirstEnd, LeftToRight;
    LeftToRightStep(t, stack, ups);
    LeftToRightEnds(stack + [t], ups);
  }

  lemma Popped(stack: seq<string>, top: string)
    ensures (stack + [top])[..|stack + [top]| - 1] == stack
  {
  }

  /** Of a component with two dots in front, as in ..data/x, three characters
      and the directory before it are lost. */
  lemma LeadingDotsLost(a: char, b: char, x: char)
    requires a != '/' && b != '/' && b != '.' && x != '/' && x != '.'
    ensures LeftToRight(['.', '.', a, b, '/', x], [], 0) == Walk.Walk([[b, '/'], [x]], 1)
  {
    hide *;
    var none: seq<string> := [];
    DotsStep(a, [b, '/', x], none, 0);
    PlainStep(b, [x], none, 1);
    LastStep(x, none + [[b, '/']], 1);
    assert ['.', '.', a] + [b, '/', x] == ['.', '.', a, b, '/', x] && [b, '/'] + [x] == [b, '/', x];
    assert none + [[b, '/']] + [[x]] == [[b, '/'], [x]];
  }

  /** An empty component, as in a//../b, counts as one, and dot-dot takes it off. */
  lemma EmptyKept(a: char, b: char)
    requires a != '/' && a != '.' && b != '/' && b != '.'
    ensures LeftToRight([a, '/', '/', '.', '.', '/', b], [], 0) == Walk.Walk([[a, '/'], [b]], 0)
  {
    hide *;
    var none: seq<string> := [];
    var one := none + [[a, '/']];
    PlainStep(a, ['/', '.', '.', '/', b], none, 0);
    EmptyStep(['.', '.', '/', b], one, 0);
    DotsStep('/', [b], one + [['/']], 0);
    Popped(one, ['/']);
    LastStep(b, one, 0);
    assert [a, '/'] + ['/', '.', '.', '/', b] == [a, '/', '/', '.', '.', '/', b];
    assert ['/'] + ['.', '.', '/', b] == ['/', '.', '.', '/', b] && ['.', '.', '/'] + [b] == ['.', '.', '/', b];
    assert one + [[b]] == [[a, '/'], [b]];
  }

  lemma CancelCut(a: char, b: char, c: char)
    requires a != '/' && b != '/' && c != '/'
    ensures Cut([a, '/', c]) == ([[a]], [c])
    ensures Cut([a, '/', '/', '.', '.', b, '/', '.', '.', '/', c]) == ([[a], "", ['.', '.', b], ".."], [c])
  {
    hide Cut, Slashed;
    var one, two, three := [[a]], [[a], ""], [[a], "", ['.', '.', b]];
    var cs := [[a], "", ['.', '.', b], ".."];
    assert Slashed([]) == "" by { SlashedLast([], ""); }
    SlashedLast([], [a]);
    SlashedLast(one, "");
    SlashedLast(two, ['.', '.', b]);
    SlashedLast(three, "..");
    assert [] + [[a]] == one && one + [""] == two && two + [['.', '.', b]] == three && three + [".."] == cs;
    assert Slashed(one) + [c] == [a, '/', c];
    assert Slashed(cs) + [c] == [a, '/', '/', '.', '.', b, '/', '.', '.', '/', c];
    CutSlashed(one, [c]);
    CutSlashed(cs, [c]);
  }

  lemma CancelWalk(a: char, b: char, c: char)
    requires a != '/' && a != '.' && b != '/' && c != '/' && c != '.'
    ensures LeftToRight([a, '/', c], [], 0) == Walk.Walk([[a, '/'], [c]], 0)
    ensures LeftToRight([a, '/', '/', '.', '.', b, '/', '.', '.', '/', c], [], 0) == Walk.Walk([[a, '/'], [c]], 0)
  {
    hide *;
    var none: seq<string> := [];
    var one, two := none + [[a, '/']], none + [[a, '/']] + [['/']];
    var u, v := ['.', '.', '/', c], ['/', '.', '.', '/', c];
    var w, x := ['.', '.', b] + v, ['/', '.', '.', b] + v;
    PlainStep(a, [c], none, 0);
    PlainStep(a, x, none, 0);
    EmptyStep(w, one, 0);
    DotsStep(b, v, two, 0);
    Popped(one, ['/']);
    EmptyStep(u, one, 0);
    DotsStep('/', [c], two, 0);
    LastStep(c, one, 0);
    assert [a, '/'] + [c] == [a, '/', c] && ['/'] + w == x && ['/'] + u == v && ['.', '.', '/'] + [c] == u;
    assert [a, '/'] + x == [a, '/', '/', '.', '.', b, '/', '.', '.', '/', c];
    assert one + [[c]] == [[a, '/'], [c]];
  }

  lemma CancelResolve(dir: seq<string>, a: char, b: char)
    requires a != '.'
    ensures Resolve(dir, [[a], "", ['.', '.', b], ".."]) == Resolve(dir, [[a]])
  {
    var one, two, three := [[a]], [[a], ""], [[a], "", ['.', '.', b]];
    var cs := [[a], "", ['.', '.', b], ".."];
    assert cs[..3] == three && three[..2] == two && two[..1] == one;
    var d := Resolve(dir, one);
    assert Resolve(dir, two) == d;
    assert Resolve(dir, three) == d + [['.', '.', b]];
    assert Drop(d + [['.', '.', b]], 1) == d;
  }

  /** With both, as in a//..b/../c, the two mistakes may cancel, and the path is right. */
  lemma MistakesCancel(dir: seq<string>, a: char, b: char, c: char)
    requires a != '/' && a != '.' && b != '/' && c != '/' && c != '.'
    ensures var name := [a, '/', '/', '.', '.', b, '/', '.', '.', '/', c];
            PathFromLeft(dir, name) == Some(Resolved(dir, name)) && "" in Cut(name).0 && !AllFromLeft(Cut(name).0)
  {
    var name, short := [a, '/', '/', '.', '.', b, '/', '.', '.', '/', c], [a, '/', c];
    hide LeftToRight, Cut, Resolve, Text, Drop, Concat;
    CancelCut(a, b, c);
    assert Cut(name).0[1] == "" && Cut(name).0[2] == ['.', '.', b];
    CancelWalk(a, b, c);
    CancelResolve(dir, a, b);
    LeftToRightCopies(dir, short);
    ResolvedCopies(dir, name);
  }

  lemma LeftToRightEnds(stack: seq<string>, ups: nat)
    ensures LeftToRight("", stack, ups) == Walk.Walk(stack, ups)
  {
  }
}
