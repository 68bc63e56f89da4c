/** The stored texts of logger/file.c and the diffs printed when they are replaced. */
module Snapshots {
  import opened Sequences
  import opened EditGrid
  import opened EditScript
  import opened Replay
  import TextLines

  // ----- Comparing two lines

  /** A line up to its end, which is a terminator or a newline; the end is included. */
  function UpToEnd(s: string): string {
    if s == "" then [NUL] else if s[0] == NUL || s[0] == '\n' then [s[0]] else [s[0]] + UpToEnd(s[1..])
  }

  /** The first newline or terminator of a line is at n, or there is none before its end. */
  ghost predicate EndsAt(line: string, n: nat)
    requires n <= |line|
  {
    && (n < |line| ==> line[n] == NUL || line[n] == '\n')
    && forall i :: 0 <= i < n ==> line[i] != NUL && line[i] != '\n'
  }

  /** The end is that newline or terminator, or the one behind the line. */
  lemma {:induction false} EndAt(s: string, n: nat)
    requires n <= |s| && EndsAt(s, n)
    ensures UpToEnd(s) == s[..n] + [if n < |s| then s[n] else NUL]
    decreases n
  {
    if n > 0 {
      EndAt(s[1..], n - 1);
      assert s[..n] == [s[0]] + s[1..][..n - 1];
    }
  }

  /** The comparison callback on two terminated lines; str[i] is '\0' at the end. */
  method DiffCmp(line1: string, line2: string) returns (r: int)
    ensures r == 0 <==> UpToEnd(line1) == UpToEnd(line2)
  {
    var str1, str2 := line1 + [NUL], line2 + [NUL];
    var i := 0;
    while str1[i] != NUL && str1[i] != '\n' && str1[i] == str2[i]
      invariant 0 <= i <= |line1| && i <= |line2|
      invariant UpToEnd(line1) == UpToEnd(line2) <==> UpToEnd(line1[i..]) == UpToEnd(line2[i..])
      decreases |line1| - i
    {
      UpToEndStep(line1[i..], line2[i..]);
      assert line1[i..][1..] == line1[i + 1..] && line2[i..][1..] == line2[i + 1..];
      i := i + 1;
    }
    UpToEndFirst(line1[i..], line2[i..]);
    return str1[i] as int - str2[i] as int;
  }

  lemma UpToEndStep(s: string, t: string)
    requires s != "" && t != "" && s[0] == t[0] && s[0] != NUL && s[0] != '\n'
    ensures UpToEnd(s) == UpToEnd(t) <==> UpToEnd(s[1..]) == UpToEnd(t[1..])
  {
    assert UpToEnd(s)[1..] == UpToEnd(s[1..]) && UpToEnd(t)[1..] == UpToEnd(t[1..]);
  }

  lemma UpToEndFirst(s: string, t: string)
    ensures UpToEnd(s)[0] == (if s == "" then NUL else s[0]) && UpToEnd(t)[0] == (if t == "" then NUL else t[0])
    ensures (s == "" || s[0] == NUL || s[0] == '\n' || t == "" || s[0] != t[0]) ==>
              (UpToEnd(s) == UpToEnd(t) <==> (if s == "" then NUL else s[0]) == (if t == "" then NUL else t[0]))
  {
  }

  /** On lines of a text, which have no newline and no terminator inside, the
      callback compares for equality. */
  lemma {:induction false} TextLinesCompare(s: string, t: string)
    requires '\n' !in s && '\n' !in t && NUL !in s && NUL !in t
    ensures UpToEnd(s) == UpToEnd(t) <==> s == t
    decreases |s|
  {
    UpToEndFirst(s, t);
    if s != "" && t != "" && s[0] == t[0] {
      UpToEndStep(s, t);
      TextLinesCompare(s[1..], t[1..]);
      assert s == [s[0]] + s[1..] && t == [t[0]] + t[1..];
    }
  }

  /** So on the lines of stored texts, which hold no terminator, it is the
      comparison by which two texts are diffed. */
  lemma StoredLinesCompare(s: string, t: string, i: int, j: int)
    requires NUL !in s && NUL !in t && 0 <= i < |TextLines.Lines(s)| && 0 <= j < |TextLines.Lines(t)|
    ensures var a, b := TextLines.Lines(s), TextLines.Lines(t);
            UpToEnd(a[i]) == UpToEnd(b[j]) <==> Whole(a, b).same(i, j)
  {
    TextLines.LinesAreClean(s);
    TextLines.LinesAreClean(t);
    TextLinesCompare(TextLines.Lines(s)[i], TextLines.Lines(t)[j]);
  }

  // ----- The callbacks of a diff

  /** A callback with its index and the line it is handed. */
  datatype Callback<T> = Minus(i: int, line: T) | Plus(j: int, line: T)

  ghost predicate InRange(s: seq<Edit>, n: int, m: int) {
    forall k :: 0 <= k < |s| ==> match s[k] case Del(i) => 0 <= i < n case Add(j) => 0 <= j < m
  }

  function Callbacks<T>(a: seq<T>, b: seq<T>, s: seq<Edit>): (p: seq<Callback<T>>)
    requires forall k :: 0 <= k < |s| ==> match s[k] case Del(i) => 0 <= i < |a| case Add(j) => 0 <= j < |b|
  {
    seq(|s|, k requires 0 <= k < |s| => match s[k] case Del(i) => Minus(i, a[i]) case Add(j) => Plus(j, b[j]))
  }

  /** Applies callbacks to a text, from element i on, with j lines done. */
  function Patched<T>(a: seq<T>, i: int, j: int, p: seq<Callback<T>>): Option<seq<T>>
    requires 0 <= i <= |a| && 0 <= j
    decreases |p|
  {
    if p == [] then Some(a[i..])
    else
      match p[0]
      case Minus(k, _) => if i <= k < |a| then Prefixed(a[i..k], Patched(a, k + 1, j + (k - i), p[1..])) else None
      case Plus(k, line) =>
        if j <= k && i + (k - j) <= |a|
        then Prefixed(a[i..i + (k - j)] + [line], Patched(a, i + (k - j), k + 1, p[1..]))
        else None
  }

  lemma PatchedFirst<T>(a: seq<T>, i: int, j: int, c: Callback<T>, p: seq<Callback<T>>)
    requires 0 <= i <= |a| && 0 <= j
    ensures Patched(a, i, j, [c] + p) ==
              match c
              case Minus(k, _) => if i <= k < |a| then Prefixed(a[i..k], Patched(a, k + 1, j + (k - i), p)) else None
              case Plus(k, line) =>
                if j <= k && i + (k - j) <= |a|
                then Prefixed(a[i..i + (k - j)] + [line], Patched(a, i + (k - j), k + 1, p))
                else None
  {
    assert ([c] + p)[1..] == p;
  }

  lemma ReplayedFirst<T>(a: seq<T>, b: seq<T>, i: int, j: int, e: Edit, s: seq<Edit>)
    requires 0 <= i <= |a| && 0 <= j
    ensures Replayed(a, b, i, j, |a|, [e] + s) ==
              match e
              case Del(k) =>
                if i <= k < |a| then Prefixed(a[i..k], Replayed(a, b, k + 1, j + (k - i), |a|, s)) else None
              case Add(k) =>
                if j <= k < |b| && i + (k - j) <= |a|
                then Prefixed(a[i..i + (k - j)] + [b[k]], Replayed(a, b, i + (k - j), k + 1, |a|, s))
                else None
  {
    assert ([e] + s)[1..] == s;
  }

  lemma CallbacksFirst<T>(a: seq<T>, b: seq<T>, s: seq<Edit>)
    requires s != [] && InRange(s, |a|, |b|)
    ensures InRange(s[1..], |a|, |b|) && s == [s[0]] + s[1..]
    ensures Callbacks(a, b, s) == Callbacks(a, b, [s[0]]) + Callbacks(a, b, s[1..])
    ensures s[0].Del? ==> 0 <= s[0].i < |a| && Callbacks(a, b, [s[0]]) == [Minus(s[0].i, a[s[0].i])]
    ensures s[0].Add? ==> 0 <= s[0].j < |b| && Callbacks(a, b, [s[0]]) == [Plus(s[0].j, b[s[0].j])]
  {
    assert InRange([s[0]], |a|, |b|);
  }

  /** A callback is handed the line its index stands for. */
  lemma CallbacksCarry<T>(a: seq<T>, b: seq<T>, s: seq<Edit>, k: int)
    requires InRange(s, |a|, |b|) && 0 <= k < |s|
    ensures |Callbacks(a, b, s)| == |s|
    ensures match Callbacks(a, b, s)[k]
            case Minus(i, line) => s[k] == Del(i) && line == a[i]
            case Plus(j, line) => s[k] == Add(j) && line == b[j]
  {
  }

  lemma NoCallbacks<T>(a: seq<T>, b: seq<T>, i: int, j: int)
    requires 0 <= i <= |a| && 0 <= j
    ensures InRange([], |a|, |b|) && Patched(a, i, j, Callbacks(a, b, [])) == Replayed(a, b, i, j, |a|, [])
  {
    assert a[i..] == a[i..|a|];
  }

  /** The callbacks carry all that replaying the script needs. */
  lemma {:induction false} CallbacksReplay<T>(a: seq<T>, b: seq<T>, i: int, j: int, s: seq<Edit>)
    requires 0 <= i <= |a| && 0 <= j && InRange(s, |a|, |b|)
    ensures Patched(a, i, j, Callbacks(a, b, s)) == Replayed(a, b, i, j, |a|, s)
    decreases |s|
  {
    hide Patched, Replayed, Callbacks, InRange;
    if s == [] {
      NoCallbacks(a, b, i, j);
    } else {
      var e, rest := s[0], s[1..];
      CallbacksFirst(a, b, s);
      PatchedFirst(a, i, j, if e.Del? then Minus(e.i, a[e.i]) else Plus(e.j, b[e.j]), Callbacks(a, b, rest));
      ReplayedFirst(a, b, i, j, e, rest);
      if e.Del? && i <= e.i < |a| {
        CallbacksReplay(a, b, e.i + 1, j + (e.i - i), rest);
      } else if e.Add? && j <= e.j && i + (e.j - j) <= |a| {
        CallbacksReplay(a, b, i + (e.j - j), e.j + 1, rest);
      }
    }
  }

  // ----- What the callbacks print

  function Sign(c: Callback<string>): char {
    if c.Minus? then '-' else '+'
  }

  /** A line without its end. */
  function Shown(line: string): string {
    UpToEnd(line)[..|UpToEnd(line)| - 1]
  }

  function PrintedLine(sign: char, line: string): string {
    [sign, ' '] + Shown(line)
  }

  function Printed(p: seq<Callback<string>>): string {
    if p == [] then "" else Printed(p[..|p| - 1]) + PrintedLine(Sign(p[|p| - 1]), p[|p| - 1].line) + "\n"
  }

  lemma ShownStep(line: string, i: nat)
    requires i < |line| && line[i] != NUL && line[i] != '\n'
    ensures Shown(line[i..]) == [line[i]] + Shown(line[i + 1..])
  {
    assert line[i..][1..] == line[i + 1..];
  }

  lemma ShownEnd(line: string, i: nat)
    requires i <= |line| && (i < |line| ==> line[i] == NUL || line[i] == '\n')
    ensures Shown(line[i..]) == ""
  {
  }

  /** diff_add and diff_del, up to their sign: they print the line and neither
      where it belongs nor what stays. */
  method DiffLine(sign: char, line: string) returns (text: string)
    ensures text == PrintedLine(sign, line) + "\n"
    ensures forall n | 0 <= n <= |line| && EndsAt(line, n) :: text == [sign, ' '] + line[..n] + "\n"
  {
    forall n | 0 <= n <= |line| && EndsAt(line, n)
      ensures PrintedLine(sign, line) + "\n" == [sign, ' '] + line[..n] + "\n"
    {
      EndAt(line, n);
    }
    var str := line + [NUL];
    var i := 0;
    text := [sign, ' '];
    ghost var begin := text;
    assert line[0..] == line;
    while str[i] != NUL && str[i] != '\n'
      invariant 0 <= i <= |line|
      invariant text + Shown(line[i..]) == begin + Shown(line)
      decreases |line| - i
    {
      ShownStep(line, i);
      Associative(text, [line[i]], Shown(line[i + 1..]));
      text := text + [str[i]];
      i := i + 1;
    }
    ShownEnd(line, i);
    assert text + "" == text;
    text := text + "\n";
  }

  lemma PrintedNext(p: seq<Callback<string>>, c: Callback<string>)
    ensures Printed(p + [c]) == Printed(p) + (PrintedLine(Sign(c), c.line) + "\n")
  {
    assert (p + [c])[..|p|] == p;
  }

  /** Of lines without newline and terminator each is printed whole behind a sign
      that says whether it goes or comes, and one after the other. */
  lemma PrintedSigns(p: seq<Callback<string>>, i: int, line: string)
    requires '\n' !in line && NUL !in line
    ensures Printed([]) == ""
    ensures Printed(p + [Minus(i, line)]) == Printed(p) + ("- " + line + "\n")
    ensures Printed(p + [Plus(i, line)]) == Printed(p) + ("+ " + line + "\n")
  {
    PrintedNext(p, Minus(i, line));
    PrintedNext(p, Plus(i, line));
    EndAt(line, |line|);
    assert line[..|line|] == line && Shown(line) == line;
    assert ['-', ' '] == "- " && ['+', ' '] == "+ ";
  }

  /** Without the indices, as they are printed. */
  function Signed(p: seq<Callback<string>>): seq<string> {
    seq(|p|, k requires 0 <= k < |p| => PrintedLine(Sign(p[k]), p[k].line))
  }

  lemma {:induction false} PrintedIsJoined(p: seq<Callback<string>>)
    ensures Printed(p) == TextLines.Join(Signed(p) + [""])
  {
    if p != [] {
      var front, c := p[..|p| - 1], p[|p| - 1];
      var line := PrintedLine(Sign(c), c.line);
      PrintedIsJoined(front);
      assert Signed(p) + [""] == Signed(front) + [line] + [""];
      hide Printed, PrintedLine, Signed;
      JoinLast(Signed(front), line);
      assert p == front + [c];
      PrintedNext(front, c);
    } else {
      assert Signed(p) + [""] == [""];
    }
  }

  lemma {:induction false} JoinLast(ls: seq<string>, l: string)
    ensures TextLines.Join(ls + [l] + [""]) == TextLines.Join(ls + [""]) + (l + "\n")
    decreases |ls|
  {
    if ls == [] {
      assert ls + [l] + [""] == [l, ""] && [l, ""][1..] == [""] && ls + [""] == [""];
      assert l + "\n" + "" == l + "\n" && "" + (l + "\n") == l + "\n";
    } else {
      JoinLast(ls[1..], l);
      assert (ls + [l] + [""])[1..] == ls[1..] + [l] + [""] && (ls + [""])[1..] == ls[1..] + [""];
      hide TextLines.Join;
      Associative(ls[0] + "\n", TextLines.Join(ls[1..] + [""]), l + "\n");
    }
  }

  lemma {:induction false} ShownHasNoNewline(line: string)
    ensures '\n' !in Shown(line)
    decreases |line|
  {
    if line != "" && line[0] != NUL && line[0] != '\n' {
      ShownHasNoNewline(line[1..]);
      ShownStep(line, 0);
      assert line[0..] == line;
    }
  }

  lemma SameShown(c: Callback<string>, e: Callback<string>)
    ensures PrintedLine(Sign(c), c.line) == PrintedLine(Sign(e), e.line) <==>
              Sign(c) == Sign(e) && Shown(c.line) == Shown(e.line)
  {
    var x, y := PrintedLine(Sign(c), c.line), PrintedLine(Sign(e), e.line);
    assert x[0] == Sign(c) && y[0] == Sign(e) && x[2..] == Shown(c.line) && y[2..] == Shown(e.line);
  }

  /** What is printed says which lines are deleted and added, and in which order,
      and no more: callbacks that differ only in their indices print the same. */
  lemma PrintedTells(p: seq<Callback<string>>, q: seq<Callback<string>>)
    ensures Printed(p) == Printed(q) <==>
              && |p| == |q|
              && forall k :: 0 <= k < |p| ==> Sign(p[k]) == Sign(q[k]) && Shown(p[k].line) == Shown(q[k].line)
  {
    hide *;
    PrintedIsJoined(p);
    PrintedIsJoined(q);
    SignedLines(p);
    SignedLines(q);
    SameJoined(Signed(p), Signed(q));
    forall k | 0 <= k < |p| && k < |q|
      ensures Signed(p)[k] == Signed(q)[k] <==> Sign(p[k]) == Sign(q[k]) && Shown(p[k].line) == Shown(q[k].line)
    {
      SameShown(p[k], q[k]);
    }
  }

  lemma SignedLines(p: seq<Callback<string>>)
    ensures |Signed(p)| == |p|
    ensures forall k :: 0 <= k < |p| ==> Signed(p)[k] == PrintedLine(Sign(p[k]), p[k].line) && '\n' !in Signed(p)[k]
  {
    forall k | 0 <= k < |p| ensures '\n' !in Signed(p)[k] {
      ShownHasNoNewline(p[k].line);
    }
  }

  lemma SameJoined(ls: seq<string>, ms: seq<string>)
    requires forall k :: 0 <= k < |ls| ==> '\n' !in ls[k]
    requires forall k :: 0 <= k < |ms| ==> '\n' !in ms[k]
    ensures TextLines.Join(ls + [""]) == TextLines.Join(ms + [""]) <==>
              |ls| == |ms| && forall k :: 0 <= k < |ls| ==> ls[k] == ms[k]
  {
    hide *;
    TextLines.SplitJoin(ls + [""]);
    TextLines.SplitJoin(ms + [""]);
    assert (ls + [""])[..|ls|] == ls && (ms + [""])[..|ms|] == ms;
    if |ls| == |ms| && forall k :: 0 <= k < |ls| ==> ls[k] == ms[k] {
      assert ls == ms;
    }
  }

  lemma ScriptInRange<T(!new)>(a: seq<T>, b: seq<T>, joined: bool)
    ensures InRange(Script(Whole(a, b), joined), |a|, |b|)
  {
    var g := Whole(a, b);
    var s := Script(g, joined);
    Accounting(g, joined);
    forall k | 0 <= k < |s| ensures match s[k] case Del(i) => 0 <= i < |a| case Add(j) => 0 <= j < |b| {
      EditOf(s, k);
    }
  }

  // ----- The stored texts

  datatype FileType = Other | Passwd | Group | Doas | Sudoers | SudoersDir

  type Lines = seq<string>

  datatype Store = Store(passwd: Lines, group: Lines, doas: Lines, sudoers: Lines)

  predicate Kept(f: FileType) {
    f != Other && f != SudoersDir
  }

  function Get(store: Store, f: FileType): Lines
    requires Kept(f)
  {
    match f
    case Passwd => store.passwd
    case Group => store.group
    case Doas => store.doas
    case Sudoers => store.sudoers
  }

  /** One write or rename: the file and its new text, or no text if it cannot be read. */
  datatype Event = Event(file: FileType, text: Option<Lines>)

  /** What an event replaces; a missing text and the other files replace nothing. */
  predicate Replaces(e: Event, f: FileType) {
    Kept(f) && e.file == f && e.text.Some?
  }

  /** The callbacks of one replacement. */
  datatype Entry = Entry(file: FileType, diff: seq<Callback<string>>)

  ghost function DiffOf(a: Lines, b: Lines, joined: bool): seq<Callback<string>> {
    ScriptInRange(a, b, joined);
    Callbacks(a, b, Script(Whole(a, b), joined))
  }

  /** The callbacks print one line after the other. */
  method PrintCallbacks(p: seq<Callback<string>>) returns (text: string)
    ensures text == Printed(p)
  {
    text := "";
    var k := 0;
    while k < |p|
      invariant 0 <= k <= |p| && text == Printed(p[..k])
    {
      var line := DiffLine(Sign(p[k]), p[k].line);
      PrintedNext(p[..k], p[k]);
      assert p[..k + 1] == p[..k] + [p[k]];
      text := text + line;
      k := k + 1;
    }
    assert p[..|p|] == p;
  }

  /** Runs the diff of two texts with the printing callbacks. */
  method DiffTexts(a: Lines, b: Lines, joined: bool) returns (diff: seq<Callback<string>>, printed: string)
    ensures diff == DiffOf(a, b, joined) && printed == Printed(diff)
  {
    hide *;
    var log := new Log();
    Diff(a, b, log, joined);
    WholeIsValid(a, b);
    assert [] + Script(Whole(a, b), joined) == Script(Whole(a, b), joined);
    DiffOfScript(a, b, joined);
    diff := Callbacks(a, b, log.edits);
    printed := PrintCallbacks(diff);
  }

  lemma DiffOfScript(a: Lines, b: Lines, joined: bool)
    ensures var s := Script(Whole(a, b), joined);
            && (forall k :: 0 <= k < |s| ==> match s[k] case Del(i) => 0 <= i < |a| case Add(j) => 0 <= j < |b|)
            && DiffOf(a, b, joined) == Callbacks(a, b, s)
  {
    ScriptInRange(a, b, joined);
  }

  class UsersGroups {
    var passwd: Lines
    var group: Lines
    var doas: Lines
    var sudoers: Lines
    var journal: seq<Entry>
    var output: string

    constructor (passwd: Lines, group: Lines, doas: Lines, sudoers: Lines)
      ensures this.passwd == passwd && this.group == group && this.doas == doas && this.sudoers == sudoers
      ensures journal == [] && output == ""
    {
      this.passwd, this.group, this.doas, this.sudoers := passwd, group, doas, sudoers;
      journal, output := [], "";
    }

    function Stored(): Store
      reads this
    {
      Store(passwd, group, doas, sudoers)
    }

    /** A text has taken the place of an old one, and the callbacks of their diff
        have been recorded and printed. */
    twostate predicate Replaced(file: FileType, was: Lines, text: Lines, joined: bool)
      reads this
    {
      && journal == old(journal) + [Entry(file, DiffOf(was, text, joined))]
      && output == old(output) + ("diff:\n" + Printed(DiffOf(was, text, joined)))
    }

    /** Makes the callbacks of the diff against the stored text of that file,
        prints them, and stores the new text. */
    method FprintDiffFiles(e: Event, joined: bool)
      modifies this
      ensures match (e.file, e.text)
              case (Passwd, Some(text)) =>
                && passwd == text && unchanged(`group) && unchanged(`doas) && unchanged(`sudoers)
                && Replaced(Passwd, old(passwd), text, joined)
              case (Group, Some(text)) =>
                && group == text && unchanged(`passwd) && unchanged(`doas) && unchanged(`sudoers)
                && Replaced(Group, old(group), text, joined)
              case (Doas, Some(text)) =>
                && doas == text && unchanged(`passwd) && unchanged(`group) && unchanged(`sudoers)
                && Replaced(Doas, old(doas), text, joined)
              case (Sudoers, Some(text)) =>
                && sudoers == text && unchanged(`passwd) && unchanged(`group) && unchanged(`doas)
                && Replaced(Sudoers, old(sudoers), text, joined)
              case (_, Some(_)) =>
                && unchanged(`passwd) && unchanged(`group) && unchanged(`doas) && unchanged(`sudoers)
                && unchanged(`journal) && output == old(output) + "diff:\n"
              case (_, None) => unchanged(this)
      ensures forall f :: Kept(f) ==>
                Get(Stored(), f) == if Replaces(e, f) then e.text.value else Get(old(Stored()), f)
      ensures journal == old(journal) +
                if Replaces(e, e.file)
                then [Entry(e.file, DiffOf(Get(old(Stored()), e.file), e.text.value, joined))]
                else []
    {
      hide DiffOf, Printed;
      if e.text.None? {
        return;
      }
      var text := e.text.value;
      ghost var before := output;
      output := output + "diff:\n";
      if !Kept(e.file) {
        return;
      }
      var diff, lines := DiffTexts(Get(Stored(), e.file), text, joined);
      Associative(before, "diff:\n", lines);
      output := output + lines;
      journal := journal + [Entry(e.file, diff)];
      match e.file
      case Group => group := text;
      case Passwd => passwd := text;
      case Sudoers => sudoers := text;
      case Doas => doas := text;
    }
  }

  // ----- What the printed diff does not say

  lemma AddedFirst(n: string, x: string, y: string)
    requires n != x && n != y && x != y
    ensures Script(Whole([x, y], [n, x, y]), false) == [Add(0)]
  {
    var g := Whole([x, y], [n, x, y]);
    TrimStartStep(g);
    TrimEndStep(g);
    TrimEndStep(Grid(0, 0, 1, 2, g.same));
    TrimEndStep(Grid(0, 0, 0, 1, g.same));
    hide TrimStart, TrimEnd;
    assert Trim(g) == Grid(0, 0, 0, 1, g.same);
    assert Additions(0, 1) == [Add(0)];
  }

  lemma AddedBetween(n: string, x: string, y: string)
    requires n != x && n != y && x != y
    ensures Script(Whole([x, y], [x, n, y]), false) == [Add(1)]
  {
    var g := Whole([x, y], [x, n, y]);
    TrimStartStep(g);
    TrimStartStep(Grid(1, 1, 2, 3, g.same));
    TrimEndStep(Grid(1, 1, 2, 3, g.same));
    TrimEndStep(Grid(1, 1, 1, 2, g.same));
    hide TrimStart, TrimEnd;
    assert Trim(g) == Grid(1, 1, 1, 2, g.same);
    assert Additions(1, 2) == [Add(1)];
  }

  /** Adding a line in front of two others or between them prints the same. */
  lemma PrintedIsNotEnough(n: string, x: string, y: string)
    requires n != x && n != y && x != y
    ensures [n, x, y] != [x, n, y]
    ensures Printed(DiffOf([x, y], [n, x, y], false)) == Printed(DiffOf([x, y], [x, n, y], false))
  {
    hide *;
    WholeIsValid([x, y], [n, x, y]);
    WholeIsValid([x, y], [x, n, y]);
    AddedFirst(n, x, y);
    AddedBetween(n, x, y);
    assert [n, x, y][0] == n && [x, n, y][0] == x;
    OneAdded([x, y], [n, x, y], 0);
    OneAdded([x, y], [x, n, y], 1);
  }

  lemma OneAdded(a: Lines, b: Lines, j: nat)
    requires j < |b| && Valid(Whole(a, b)) && Script(Whole(a, b), false) == [Add(j)]
    ensures Printed(DiffOf(a, b, false)) == PrintedLine('+', b[j]) + "\n"
  {
    hide Printed, PrintedLine, Script;
    DiffOfScript(a, b, false);
    var none: seq<Callback<string>> := [];
    assert DiffOf(a, b, false) == none + [Plus(j, b[j])];
    PrintedNext(none, Plus(j, b[j]));
    NothingPrinted();
    assert "" + (PrintedLine('+', b[j]) + "\n") == PrintedLine('+', b[j]) + "\n";
  }

  lemma NothingPrinted()
    ensures Printed([]) == ""
  {
  }

  // ----- Runs of events

  /** The text of file f after a run that began with text a. */
  function After(a: Lines, events: seq<Event>, f: FileType): Lines {
    if events == [] then a
    else
      var e := events[|events| - 1];
      if Replaces(e, f) then e.text.value else After(a, events[..|events| - 1], f)
  }

  /** It is the text of the last event of that file that has one, if there is any. */
  lemma {:induction false} LatestText(a: Lines, events: seq<Event>, f: FileType, i: int)
    requires f == Passwd || f == Group || f == Doas || f == Sudoers
    requires -1 <= i < |events| && forall j :: i < j < |events| ==> events[j].file != f || events[j].text == None
    requires i >= 0 ==> events[i].file == f && events[i].text.Some?
    ensures After(a, events, f) == if i >= 0 then events[i].text.value else a
    decreases |events|
  {
    if i < |events| - 1 {
      LatestText(a, events[..|events| - 1], f, i);
    }
  }

  /** The diffs of file f in a journal, in order. */
  function DiffsOf(journal: seq<Entry>, f: FileType): seq<seq<Callback<string>>> {
    if journal == [] then []
    else
      var e := journal[|journal| - 1];
      DiffsOf(journal[..|journal| - 1], f) + (if e.file == f then [e.diff] else [])
  }

  /** Applies diffs one after the other. */
  function PatchedBy(a: Lines, diffs: seq<seq<Callback<string>>>): Option<Lines> {
    if diffs == [] then Some(a)
    else
      var b := PatchedBy(a, diffs[..|diffs| - 1]);
      if b.Some? then Patched(b.value, 0, 0, diffs[|diffs| - 1]) else None
  }

  /** The text of f after e, and one more entry of the journal if it changed. */
  lemma DiffPatches(a: Lines, b: Lines, joined: bool)
    ensures Patched(a, 0, 0, DiffOf(a, b, joined)) == Some(b) <==> TurnsInto(a, b, Script(Whole(a, b), joined))
  {
    ScriptInRange(a, b, joined);
    CallbacksReplay(a, b, 0, 0, Script(Whole(a, b), joined));
  }

  /** No diff of the run steps over unequal lines. */
  ghost predicate Sound(store: Store, events: seq<Event>, f: FileType, joined: bool)
    requires Kept(f)
  {
    forall i :: 0 <= i < |events| && Replaces(events[i], f) ==>
      var a, b := After(Get(store, f), events[..i], f), events[i].text.value;
      AllEqual(Whole(a, b).same, Skipped(Whole(a, b), joined))
  }

  /** Handles a run of events.  Afterwards every stored text is the latest text
      of its file, and the callbacks made for a file, applied in order to the text
      it began with, give the text it has: always if the halves of a split
      share a point, and for the program as written if no split stepped over
      unequal lines. */
  method HandleEvents(ug: UsersGroups, events: seq<Event>, joined: bool)
    requires ug.journal == []
    modifies ug
    ensures forall f :: Kept(f) ==> Get(ug.Stored(), f) == After(Get(old(ug.Stored()), f), events, f)
    ensures forall f :: Kept(f) && (joined || Sound(old(ug.Stored()), events, f, joined)) ==>
              PatchedBy(Get(old(ug.Stored()), f), DiffsOf(ug.journal, f)) == Some(Get(ug.Stored(), f))
  {
    ghost var store := ug.Stored();
    var i := 0;
    NoEventYet(store, ug.journal, events, joined);
    while i < |events|
      invariant 0 <= i <= |events| && InStep(store, ug.Stored(), ug.journal, events, i, joined)
    {
      hide *;
      ghost var before, journal := ug.Stored(), ug.journal;
      ug.FprintDiffFiles(events[i], joined);
      NextEvent(store, before, ug.Stored(), journal, ug.journal, events, i, joined);
      i := i + 1;
    }
    assert events[..|events|] == events;
  }

  /** After i events, what is stored and what has been recorded fit together. */
  ghost predicate InStep(store: Store, now: Store, journal: seq<Entry>, events: seq<Event>, i: int, joined: bool)
    requires 0 <= i <= |events|
  {
    forall f :: Kept(f) ==>
      && Get(now, f) == After(Get(store, f), events[..i], f)
      && (joined || Sound(store, events, f, joined) ==>
            PatchedBy(Get(store, f), DiffsOf(journal, f)) == Some(Get(now, f)))
  }

  lemma NoEventYet(store: Store, journal: seq<Entry>, events: seq<Event>, joined: bool)
    requires journal == []
    ensures InStep(store, store, journal, events, 0, joined)
  {
  }

  lemma NextEvent(store: Store, before: Store, after: Store, journal: seq<Entry>, journal': seq<Entry>,
                  events: seq<Event>, i: int, joined: bool)
    requires 0 <= i < |events| && InStep(store, before, journal, events, i, joined)
    requires forall f :: Kept(f) ==>
               Get(after, f) == if Replaces(events[i], f) then events[i].text.value else Get(before, f)
    requires var e := events[i];
             journal' == journal +
               if Replaces(e, e.file) then [Entry(e.file, DiffOf(Get(before, e.file), e.text.value, joined))] else []
    ensures InStep(store, after, journal', events, i + 1, joined)
  {
    hide Get, Replaces, DiffOf, Sound, PatchedBy, DiffsOf, Kept;
    assert events[..i + 1][..i] == events[..i];
    forall f | Kept(f)
      ensures Get(after, f) == After(Get(store, f), events[..i + 1], f)
      ensures joined || Sound(store, events, f, joined) ==>
                PatchedBy(Get(store, f), DiffsOf(journal', f)) == Some(Get(after, f))
    {
      OneMoreEvent(before, after, journal, journal', store, events, i, f, joined);
    }
  }

  lemma OneMoreEvent(before: Store, after: Store, journal: seq<Entry>, journal': seq<Entry>, store: Store,
                     events: seq<Event>, i: int, f: FileType, joined: bool)
    requires Kept(f) && 0 <= i < |events|
    requires Get(after, f) == if Replaces(events[i], f) then events[i].text.value else Get(before, f)
    requires var e := events[i];
             journal' == journal +
               if Replaces(e, e.file) then [Entry(e.file, DiffOf(Get(before, e.file), e.text.value, joined))] else []
    requires Get(before, f) == After(Get(store, f), events[..i], f)
    requires joined || Sound(store, events, f, joined) ==>
               PatchedBy(Get(store, f), DiffsOf(journal, f)) == Some(Get(before, f))
    ensures joined || Sound(store, events, f, joined) ==>
              PatchedBy(Get(store, f), DiffsOf(journal', f)) == Some(Get(after, f))
  {
    var e := events[i];
    if Replaces(e, e.file) {
      var last := Entry(e.file, DiffOf(Get(before, e.file), e.text.value, joined));
      assert journal' == journal + [last] && journal'[..|journal|] == journal;
      if e.file == f {
        var diffs := DiffsOf(journal, f);
        assert DiffsOf(journal', f) == diffs + [last.diff];
        assert (diffs + [last.diff])[..|diffs|] == diffs;
        var a, b := Get(before, f), e.text.value;
        DiffPatches(a, b, joined);
        if joined {
          JoinedScriptTurns(a, b);
        } else {
          LiteralScriptTurns(a, b);
        }
      } else {
        assert DiffsOf(journal, f) + [] == DiffsOf(journal, f);
      }
    } else {
      assert journal' == journal;
    }
  }
}
