/** Paths as lists of component names, and their text in a path buffer. */
module PathText {
  import opened Sequences

  const PATH_SIZE := 4096

  /** Every component followed by a slash. */
  function Slashed(names: seq<string>): string {
    if names == [] then "" else Slashed(names[..|names| - 1]) + names[|names| - 1] + "/"
  }

  /** The text of a directory: a slash, and one after every component. */
  function Text(names: seq<string>): string {
    "/" + Slashed(names)
  }

  predicate SlashFree(s: string) {
    forall i :: 0 <= i < |s| ==> s[i] != '/'
  }

  predicate AllSlashFree(names: seq<string>) {
    forall i :: 0 <= i < |names| ==> SlashFree(names[i])
  }

  /** Going up p times; above the root there is the root. */
  function Drop(names: seq<string>, p: int): seq<string> {
    if p <= 0 then names else if p >= |names| then [] else names[..|names| - p]
  }

  lemma DropDrop(names: seq<string>, p: nat, q: nat)
    ensures Drop(Drop(names, p), q) == Drop(names, p + q)
  {
  }

  /** Lexical resolution, section 4.13 of POSIX.1-2017 Base Definitions: dot
      stays, dot-dot goes up, every other component goes down, and several
      slashes count as one. */
  function Resolve(dir: seq<string>, cs: seq<string>): seq<string> {
    if cs == [] then dir
    else
      Enter(Resolve(dir, cs[..|cs| - 1]), cs[|cs| - 1])
  }

  function Enter(dir: seq<string>, c: string): seq<string> {
    if c == "" || c == "." then dir else if c == ".." then Drop(dir, 1) else dir + [c]
  }

  lemma {:induction false} ResolveFirst(dir: seq<string>, c: string, cs: seq<string>)
    ensures Resolve(dir, [c] + cs) == Resolve(Enter(dir, c), cs)
  {
    if cs == [] {
      assert [c] + cs == [c] && [c][..0] == [];
    } else {
      ResolveFirst(dir, c, cs[..|cs| - 1]);
      assert ([c] + cs)[..|cs|] == [c] + cs[..|cs| - 1];
    }
  }

  /** Entering a name and leaving it, dot and nothing change nothing; a name goes
      behind what is there, and above the root there is the root. */
  lemma ResolveLaws(dir: seq<string>, cs: seq<string>, n: string)
    requires n != "" && n != "." && n != ".."
    ensures Resolve(dir, []) == dir
    ensures Resolve(dir, cs + [n]) == Resolve(dir, cs) + [n]
    ensures Resolve(dir, cs + [n] + [".."]) == Resolve(dir, cs)
    ensures Resolve(dir, cs + ["."]) == Resolve(dir, cs) == Resolve(dir, cs + [""])
    ensures Resolve([], [".."]) == []
  {
    LastEntered(dir, cs, n);
    LastEntered(dir, cs + [n], "..");
    LastEntered(dir, cs, ".");
    LastEntered(dir, cs, "");
    LastEntered([], [], "..");
    hide Resolve;
    var d := Resolve(dir, cs);
    assert (d + [n])[..|d|] == d && [] + [".."] == [".."];
    assert Resolve([], []) == [] by { NothingEntered([]); }
    NothingEntered(dir);
  }

  lemma NothingEntered(dir: seq<string>)
    ensures Resolve(dir, []) == dir
  {
  }

  lemma LastEntered(dir: seq<string>, cs: seq<string>, c: string)
    ensures Resolve(dir, cs + [c]) == Enter(Resolve(dir, cs), c)
  {
    assert (cs + [c])[..|cs|] == cs;
  }

  lemma {:induction false} SlashedConcat(p: seq<string>, q: seq<string>)
    ensures Slashed(p + q) == Slashed(p) + Slashed(q)
  {
    if q == [] {
      assert p + q == p;
    } else {
      SlashedConcat(p, q[..|q| - 1]);
      assert (p + q)[..|p + q| - 1] == p + q[..|q| - 1];
      Associative(Slashed(p), Slashed(q[..|q| - 1]), q[|q| - 1]);
      Associative(Slashed(p), Slashed(q[..|q| - 1]) + q[|q| - 1], "/");
    }
  }

  lemma TextOfRoot()
    ensures Text([]) == "/"
  {
  }

  lemma TextLast(front: seq<string>, c: string)
    ensures Text(front + [c]) == Text(front) + c + "/"
  {
    SlashedLast(front, c);
    hide Slashed;
    Associative("/", Slashed(front), c);
    Associative("/", Slashed(front) + c, "/");
  }

  /** The text of a directory, some more components and a tail. */
  lemma TextJoins(dir: seq<string>, names: seq<string>, t: string)
    ensures Text(dir) + (Slashed(names) + t) == Text(dir + names) + t
  {
    SlashedConcat(dir, names);
    Associative("/", Slashed(dir), Slashed(names));
    Associative(Text(dir), Slashed(names), t);
  }

  lemma SlashedPrepend(n: string, names: seq<string>)
    ensures Slashed([n] + names) == n + "/" + Slashed(names)
  {
    SlashedConcat([n], names);
    assert Slashed([n]) == Slashed([]) + n + "/" by { assert [n][..0] == []; }
  }

  /** Where the text of the first q components ends, inside the whole text. */
  lemma TextPrefix(names: seq<string>, q: nat)
    requires q <= |names|
    ensures |Text(names[..q])| <= |Text(names)| && Text(names)[..|Text(names[..q])|] == Text(names[..q])
    ensures q > 0 ==> Text(names[..q]) == Text(names[..q - 1]) + names[q - 1] + "/"
  {
    assert names == names[..q] + names[q..];
    SlashedConcat(names[..q], names[q..]);
    if q > 0 {
      assert names[..q][..q - 1] == names[..q - 1];
    }
  }

  /** The components of a name that are followed by a slash, and its tail. */
  function Cut(s: string): (r: (seq<string>, string))
    ensures AllSlashFree(r.0) && SlashFree(r.1)
    ensures Slashed(r.0) + r.1 == s
  {
    if s == "" then ([], "")
    else
      var (cs, t) := Cut(s[..|s| - 1]);
      if s[|s| - 1] == '/' then
        assert (cs + [t])[..|cs|] == cs && s == s[..|s| - 1] + "/";
        (cs + [t], "")
      else
        assert Slashed(cs) + (t + [s[|s| - 1]]) == s;
        (cs, t + [s[|s| - 1]])
  }

  lemma CutNext(s: string, c: char)
    ensures Cut(s + [c]) == if c == '/' then (Cut(s).0 + [Cut(s).1], "") else (Cut(s).0, Cut(s).1 + [c])
  {
    assert (s + [c])[..|s + [c]| - 1] == s;
  }

  lemma SlashedLast(front: seq<string>, c: string)
    ensures Slashed(front + [c]) == Slashed(front) + c + "/"
    ensures Slashed(front) != "" <==> front != []
  {
    assert (front + [c])[..|front|] == front;
  }

  lemma SlashFreeLast(s: string, c: char)
    ensures SlashFree(s + [c]) <==> SlashFree(s) && c != '/'
  {
    var w := s + [c];
    assert w[|s|] == c && forall i :: 0 <= i < |s| ==> w[i] == s[i];
  }

  /** Nothing else is a name cut like that. */
  lemma {:induction false} CutSlashed(cs: seq<string>, t: string)
    requires AllSlashFree(cs) && SlashFree(t)
    ensures Cut(Slashed(cs) + t) == (cs, t)
    decreases |cs|, |t|
  {
    hide Cut, Slashed;
    if t != "" {
      var front, c := t[..|t| - 1], t[|t| - 1];
      assert front + [c] == t;
      CutSlashed(cs, front);
      Associative(Slashed(cs), front, [c]);
      CutNext(Slashed(cs) + front, c);
    } else if cs != [] {
      var front, c := cs[..|cs| - 1], cs[|cs| - 1];
      assert front + [c] == cs;
      CutSlashed(front, c);
      SlashedLast(front, c);
      CutNext(Slashed(front) + c, '/');
      assert Slashed(cs) + "" == Slashed(cs);
    } else {
      NothingToCut();
    }
  }

  lemma NothingToCut()
    ensures Cut(Slashed([]) + "") == ([], "")
  {
  }

  /** A part that ends in a slash does not matter for the tail. */
  lemma {:induction false} TailAfter(x: string, y: string)
    ensures Cut(x + y).1 == if SlashFree(y) then Cut(x).1 + y else Cut(y).1
    decreases |y|
  {
    hide *;
    if y == "" {
      assert x + y == x && Cut(x).1 + y == Cut(x).1;
      NoSlashInNothing();
    } else {
      var front, c := y[..|y| - 1], y[|y| - 1];
      assert front + [c] == y;
      TailAfter(x, front);
      CutNext(x + front, c);
      CutNext(front, c);
      SlashFreeLast(front, c);
      Associative(x, front, [c]);
      Associative(Cut(x).1, front, [c]);
    }
  }

  lemma NoSlashInNothing()
    ensures SlashFree("")
  {
  }

  predicate Dots(c: string) {
    c == "." || c == ".."
  }

  predicate Relative(s: string) {
    s == "" || s[0] != '/'
  }

  lemma RelativeStarts(cs: seq<string>, t: string)
    ensures Relative(Slashed(cs) + t) && cs != [] ==> cs[0] != ""
  {
    if cs != [] {
      SlashedPrepend(cs[0], cs[1..]);
      assert [cs[0]] + cs[1..] == cs;
    }
  }

  /** The components resolved, and the tail as it is. */
  function Copied(dir: seq<string>, name: string): string {
    var (cs, t) := Cut(name);
    Text(Resolve(dir, cs)) + t
  }

  /** The lexically resolved path of a name.  The tail is a component like the
      others; unless it is empty, dot or dot-dot it need not be a directory, and
      gets no slash. */
  function Resolved(dir: seq<string>, name: string): string {
    var (cs, t) := Cut(name);
    if t == "" || Dots(t) then Text(Resolve(dir, cs + [t])) else Text(Resolve(dir, cs)) + t
  }

  lemma ResolvedCopies(dir: seq<string>, name: string)
    requires !Dots(Cut(name).1)
    ensures Resolved(dir, name) == Copied(dir, name)
  {
    var (cs, t) := Cut(name);
    hide Cut, Text;
    assert (cs + [t])[..|cs|] == cs;
    var text := Text(Resolve(dir, cs));
    assert text + "" == text;
  }

  /** Before such a tail the resolved path ends in a slash, and with the tail in a dot. */
  lemma ResolvedEnters(dir: seq<string>, name: string)
    requires Dots(Cut(name).1)
    ensures Resolved(dir, name)[|Resolved(dir, name)| - 1] == '/'
    ensures Resolved(dir, name) == Text(Enter(Resolve(dir, Cut(name).0), Cut(name).1))
  {
    var (cs, t) := Cut(name);
    hide Cut, Text;
    assert (cs + [t])[..|cs|] == cs;
    TextEnds(Resolve(dir, cs + [t]));
  }

  lemma SlashedEnds(cs: seq<string>)
    ensures Slashed(cs) == "" || Slashed(cs)[|Slashed(cs)| - 1] == '/'
  {
  }

  lemma TextEnds(names: seq<string>)
    ensures Text(names) != "" && Text(names)[|Text(names)| - 1] == '/'
  {
    SlashedEnds(names);
  }
}
