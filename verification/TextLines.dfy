/** The two line readers of logger/text.c. */
module TextLines {
  import opened Sequences

  /** What the end-of-file value looks like once it is stored in a char. */
  const EOF_CHAR: char := 255 as char

  // ----- Lines of a text

  /** The segments between newlines, empty ones included. */
  function Split(s: string): (r: seq<string>)
    ensures r != []
  {
    if s == "" then [""]
    else
      var rest := Split(s[1..]);
      if s[0] == '\n' then [""] + rest else [[s[0]] + rest[0]] + rest[1..]
  }

  function NonEmpty(ss: seq<string>): seq<string> {
    if ss == [] then [] else (if ss[0] == "" then [] else [ss[0]]) + NonEmpty(ss[1..])
  }

  /** The lines of a text: its first segment, and the others that are not empty. */
  function Lines(s: string): seq<string> {
    [Split(s)[0]] + NonEmpty(Split(s)[1..])
  }

  function Join(ss: seq<string>): string {
    if |ss| == 0 then "" else if |ss| == 1 then ss[0] else ss[0] + "\n" + Join(ss[1..])
  }

  /** Splitting is the inverse of joining with newlines. */
  lemma {:induction false} JoinSplit(s: string)
    ensures Join(Split(s)) == s
    ensures forall i :: 0 <= i < |Split(s)| ==> '\n' !in Split(s)[i]
    decreases |s|
  {
    if s != "" {
      JoinSplit(s[1..]);
      var rest := Split(s[1..]);
      if s[0] == '\n' {
        assert Split(s)[1..] == rest;
      } else {
        assert Split(s)[1..] == rest[1..];
      }
    }
  }

  lemma {:induction false} SplitSegment(l: string, rest: string)
    requires '\n' !in l
    ensures Split(l) == [l] && Split(l + "\n" + rest) == [l] + Split(rest)
    decreases |l|
  {
    if l == "" {
      assert l + "\n" + rest == "\n" + rest && ("\n" + rest)[1..] == rest;
    } else {
      SplitSegment(l[1..], rest);
      assert (l + "\n" + rest)[1..] == l[1..] + "\n" + rest;
      assert [l[0]] + l[1..] == l;
    }
  }

  /** Joining is the inverse of splitting. */
  lemma {:induction false} SplitJoin(ls: seq<string>)
    requires ls != [] && forall i :: 0 <= i < |ls| ==> '\n' !in ls[i]
    ensures Split(Join(ls)) == ls
    decreases |ls|
  {
    if |ls| == 1 {
      SplitSegment(ls[0], "");
    } else {
      SplitJoin(ls[1..]);
      SplitSegment(ls[0], Join(ls[1..]));
    }
  }

  lemma {:induction false} NothingEmpty(ls: seq<string>)
    requires forall i :: 0 <= i < |ls| ==> ls[i] != ""
    ensures NonEmpty(ls) == ls && NonEmpty(ls + [""]) == ls
    decreases |ls|
  {
    if ls != [] {
      NothingEmpty(ls[1..]);
      assert (ls + [""])[1..] == ls[1..] + [""];
    } else {
      assert [""][1..] == [];
    }
  }

  lemma SplitTerminated(ls: seq<string>)
    requires ls != [] && forall i :: 0 <= i < |ls| ==> '\n' !in ls[i]
    ensures Split(Join(ls)) == ls && Split(Join(ls + [""])) == ls + [""]
  {
    hide *;
    SplitJoin(ls);
    SplitJoin(ls + [""]);
  }

  lemma LinesOf(s: string, ls: seq<string>)
    requires ls != [] && (forall i :: 0 < i < |ls| ==> ls[i] != "")
    requires Split(s) == ls || Split(s) == ls + [""]
    ensures Lines(s) == ls
  {
    hide Split, NonEmpty;
    NothingEmpty(ls[1..]);
    assert (ls + [""])[1..] == ls[1..] + [""] && (ls + [""])[0] == ls[0];
    assert [ls[0]] + ls[1..] == ls;
  }

  /** Lines written out and terminated by a newline are read back as they were. */
  lemma LinesReadBack(ls: seq<string>)
    requires ls != [] && (forall i :: 0 <= i < |ls| ==> '\n' !in ls[i]) && (forall i :: 0 < i < |ls| ==> ls[i] != "")
    ensures Lines(Join(ls + [""])) == ls && Lines(Join(ls)) == ls
  {
    hide *;
    SplitTerminated(ls);
    LinesOf(Join(ls), ls);
    LinesOf(Join(ls + [""]), ls);
  }

  ghost predicate NoNewlines(ls: seq<string>) {
    forall i :: 0 <= i < |ls| ==> '\n' !in ls[i]
  }

  lemma NoNewlinesIn(p: seq<string>, q: seq<string>)
    requires NoNewlines(p) && NoNewlines(q)
    ensures NoNewlines(p + q) && NoNewlines([""]) && NoNewlines(p + [""])
  {
  }

  lemma TailOf(p: seq<string>, q: seq<string>)
    requires p != []
    ensures (p + q)[1..] == p[1..] + q && (p + q)[0] == p[0]
  {
  }

  /** An empty segment behind the first one makes no line. */
  lemma EmptySegmentDropped(p: seq<string>, q: seq<string>)
    requires p != [] && NoNewlines(p) && NoNewlines(q)
    ensures Lines(Join(p + [""] + q)) == Lines(Join(p + q))
  {
    hide Split, Join, NonEmpty, NoNewlines;
    NoNewlinesIn(p, q);
    NoNewlinesIn(p + [""], q);
    SplitsBack(p + [""] + q);
    SplitsBack(p + q);
    TailOf(p, [""]);
    TailOf(p + [""], q);
    TailOf(p, q);
    DropsEmpty(p[1..], q);
  }

  lemma SplitsBack(ls: seq<string>)
    requires ls != [] && NoNewlines(ls)
    ensures Split(Join(ls)) == ls
  {
    SplitJoin(ls);
  }

  lemma {:induction false} DropsEmpty(p: seq<string>, q: seq<string>)
    ensures NonEmpty(p + [""] + q) == NonEmpty(p + q)
    decreases |p|
  {
    if p == [] {
      assert ([] + [""] + q)[1..] == q && [] + q == q && [] + NonEmpty(q) == NonEmpty(q);
    } else {
      DropsEmpty(p[1..], q);
      assert (p + [""] + q)[1..] == p[1..] + [""] + q && (p + q)[1..] == p[1..] + q;
    }
  }

  lemma {:induction false} SegmentsWithin(s: string, c: char)
    requires c !in s
    ensures forall i :: 0 <= i < |Split(s)| ==> c !in Split(s)[i]
    decreases |s|
  {
    if s != "" {
      SegmentsWithin(s[1..], c);
      var rest := Split(s[1..]);
      assert rest == [rest[0]] + rest[1..];
    }
  }

  lemma {:induction false} NonEmptyWithin(ss: seq<string>, c: char)
    requires forall i :: 0 <= i < |ss| ==> c !in ss[i]
    ensures forall i :: 0 <= i < |NonEmpty(ss)| ==> c !in NonEmpty(ss)[i]
    decreases |ss|
  {
    if ss != [] { NonEmptyWithin(ss[1..], c); }
  }

  /** No line of a text holds a newline, or a terminator if the text holds none. */
  lemma LinesAreClean(s: string)
    requires NUL !in s
    ensures forall i :: 0 <= i < |Lines(s)| ==> '\n' !in Lines(s)[i] && NUL !in Lines(s)[i]
  {
    JoinSplit(s);
    SegmentsWithin(s, NUL);
    hide Split, NonEmpty;
    NonEmptyWithin(Split(s)[1..], '\n');
    NonEmptyWithin(Split(s)[1..], NUL);
  }

  /** What is read fits where the text was. */
  lemma {:induction false} LinesFit(s: string)
    ensures |Flat(Lines(s))| <= |s| + 1
    decreases |s|
  {
    LengthOfSplit(s);
    var r := Split(s);
    NonEmptyShorter(r[1..]);
    FlatLength(Lines(s));
    FlatLength([r[0]] + NonEmpty(r[1..]));
    assert ([r[0]] + NonEmpty(r[1..]))[1..] == NonEmpty(r[1..]);
  }

  /** Characters and terminators of a list of lines. */
  function TotalLength(ls: seq<string>): nat {
    if ls == [] then 0 else |ls[0]| + 1 + TotalLength(ls[1..])
  }

  lemma {:induction false} LengthOfSplit(s: string)
    ensures TotalLength(Split(s)) == |s| + 1
    decreases |s|
  {
    if s != "" {
      LengthOfSplit(s[1..]);
      var rest := Split(s[1..]);
      assert ([""] + rest)[1..] == rest;
      assert ([[s[0]] + rest[0]] + rest[1..])[1..] == rest[1..];
    } else {
      assert [""][1..] == [];
    }
  }

  lemma {:induction false} NonEmptyShorter(ss: seq<string>)
    ensures TotalLength(NonEmpty(ss)) <= TotalLength(ss)
    decreases |ss|
  {
    if ss != [] {
      NonEmptyShorter(ss[1..]);
      assert ([ss[0]] + NonEmpty(ss[1..]))[1..] == NonEmpty(ss[1..]);
      assert [] + NonEmpty(ss[1..]) == NonEmpty(ss[1..]);
    }
  }

  lemma {:induction false} FlatLength(ls: seq<string>)
    ensures |Flat(ls)| == TotalLength(ls)
    decreases |ls|
  {
    if ls != [] {
      FlatLength(ls[..|ls| - 1]);
      LastLength(ls[..|ls| - 1], ls[|ls| - 1]);
      assert ls[..|ls| - 1] + [ls[|ls| - 1]] == ls;
    }
  }

  lemma {:induction false} LastLength(ls: seq<string>, l: string)
    ensures TotalLength(ls + [l]) == TotalLength(ls) + |l| + 1
    decreases |ls|
  {
    if ls == [] {
      assert ([] + [l])[1..] == [];
    } else {
      LastLength(ls[1..], l);
      assert (ls + [l])[1..] == ls[1..] + [l];
    }
  }

  /** Lines one after the other, each with its terminator. */
  function Flat(ls: seq<string>): string {
    if ls == [] then "" else Flat(ls[..|ls| - 1]) + ls[|ls| - 1] + [NUL]
  }

  /** Where each line starts. */
  function Starts(ls: seq<string>): seq<nat> {
    seq(|ls|, i requires 0 <= i < |ls| => |Flat(ls[..i])|)
  }

  lemma FlatAppend(ls: seq<string>, l: string)
    ensures Flat(ls + [l]) == Flat(ls) + l + [NUL]
  {
    assert (ls + [l])[..|ls|] == ls;
  }

  lemma StartsAppend(ls: seq<string>, l: string)
    ensures Starts(ls + [l]) == Starts(ls) + [|Flat(ls)|]
  {
    assert (ls + [l])[..|ls|] == ls;
    forall i | 0 <= i < |ls| ensures Starts(ls + [l])[i] == Starts(ls)[i] {
      assert (ls + [l])[..i] == ls[..i];
    }
  }

  lemma StartsForget(ls: seq<string>, l: string, m: string)
    ensures Starts(ls + [l]) == Starts(ls + [m])
  {
    forall i | 0 <= i <= |ls| ensures Starts(ls + [l])[i] == Starts(ls + [m])[i] {
      assert (ls + [l])[..i] == (ls + [m])[..i];
    }
  }

  /** Each line stands where it starts, up to its terminator, and right behind
      that starts the next one. */
  lemma {:induction false} LineAt(ls: seq<string>, i: nat)
    requires i < |ls|
    ensures |Starts(ls)| == |ls| && Starts(ls)[0] == 0
    ensures var p, q := Starts(ls)[i], Starts(ls)[i] + |ls[i]|;
            && q < |Flat(ls)| && Flat(ls)[p..q] == ls[i] && Flat(ls)[q] == NUL
            && q + 1 == if i + 1 < |ls| then Starts(ls)[i + 1] else |Flat(ls)|
    decreases |ls|
  {
    var front, l := ls[..|ls| - 1], ls[|ls| - 1];
    assert front + [l] == ls && ls[..0] == [] && ls[..|ls|] == ls;
    FlatAppend(front, l);
    StartsAppend(front, l);
    hide Flat, Starts;
    var flat := Flat(front);
    if i < |front| {
      LineAt(front, i);
      var p, q := Starts(front)[i], Starts(front)[i] + |front[i]|;
      assert (flat + l + [NUL])[p..q] == flat[p..q];
    } else {
      assert (flat + l + [NUL])[|flat|..|flat| + |l|] == l;
      FirstStart(front, l);
    }
  }

  lemma FirstStart(ls: seq<string>, l: string)
    ensures Starts(ls + [l])[0] == 0
  {
    assert (ls + [l])[..0] == [];
  }

  // ----- Progress through a text

  /** The lines of the text are those that are done, then what has been read of
      the current one with what is still to come. */
  ghost predicate Reading(all: seq<string>, done: seq<string>, cur: string, rest: string) {
    all == done + [cur + Split(rest)[0]] + NonEmpty(Split(rest)[1..])
  }

  /** Between two lines: newlines have been read and no character after them. */
  ghost predicate Skipping(all: seq<string>, done: seq<string>, rest: string) {
    all == done + NonEmpty(Split(rest))
  }

  lemma ReadingStarts(s: string)
    ensures Reading(Lines(s), [], "", s)
  {
    assert [] + [Split(s)[0]] == [Split(s)[0]] && "" + Split(s)[0] == Split(s)[0];
  }

  lemma ReadCharacter(all: seq<string>, done: seq<string>, cur: string, rest: string)
    requires Reading(all, done, cur, rest) && rest != "" && rest[0] != '\n'
    ensures Reading(all, done, cur + [rest[0]], rest[1..])
  {
    var r := Split(rest[1..]);
    assert cur + ([rest[0]] + r[0]) == cur + [rest[0]] + r[0];
    assert Split(rest)[1..] == r[1..];
  }

  lemma ReadNewline(all: seq<string>, done: seq<string>, cur: string, rest: string)
    requires Reading(all, done, cur, rest) && rest != "" && rest[0] == '\n'
    ensures Skipping(all, done + [cur], rest[1..])
  {
    assert cur + "" == cur;
    assert Split(rest)[1..] == Split(rest[1..]);
  }

  lemma SkipNewline(all: seq<string>, done: seq<string>, rest: string)
    requires Skipping(all, done, rest) && rest != "" && rest[0] == '\n'
    ensures Skipping(all, done, rest[1..])
  {
    assert Split(rest)[1..] == Split(rest[1..]);
    assert [] + NonEmpty(Split(rest)[1..]) == NonEmpty(Split(rest)[1..]);
  }

  lemma NextLine(all: seq<string>, done: seq<string>, rest: string)
    requires Skipping(all, done, rest) && rest != "" && rest[0] != '\n'
    ensures Reading(all, done, [rest[0]], rest[1..])
  {
    var r := Split(rest[1..]);
    assert Split(rest) == [[rest[0]] + r[0]] + r[1..];
    assert NonEmpty(Split(rest)) == [[rest[0]] + r[0]] + NonEmpty(r[1..]);
  }

  lemma ReadingEnds(all: seq<string>, done: seq<string>, cur: string)
    ensures Reading(all, done, cur, "") ==> all == done + [cur]
    ensures Skipping(all, done, "") ==> all == done
  {
    assert cur + "" == cur;
    assert done + [cur] + [] == done + [cur] && done + [] == done;
    assert NonEmpty([""]) == [] by { assert [""][1..] == []; assert [] + NonEmpty([]) == []; }
    assert Split("")[1..] == [];
  }

  // ----- The readers

  const LINES_RESERVED_DEFAULT := 32

  /** A text: its buffer, and a table of where its lines start in it. */
  class Text {
    var buffer: array<char>
    var bufferSize: nat
    var lines: array<nat>
    var linesSize: nat
    var linesReserved: nat

    /** A text with room for size characters and no lines yet. */
    constructor (size: nat)
      ensures Valid() && Table() == [] && buffer.Length == size && fresh(buffer) && fresh(lines)
      ensures bufferSize == size && linesReserved == 32
    {
      buffer := new char[size];
      bufferSize := size;
      lines := new nat[LINES_RESERVED_DEFAULT];
      linesSize := 0;
      linesReserved := LINES_RESERVED_DEFAULT;
    }

    ghost predicate Valid()
      reads this
    {
      0 < linesReserved == lines.Length && linesSize <= linesReserved
    }

    ghost function Table(): seq<nat>
      requires Valid()
      reads this, lines
    {
      lines[..linesSize]
    }

    /** The buffer holds these lines and the table says where each starts. */
    ghost predicate Holds(ls: seq<string>)
      reads this, lines, buffer
    {
      && Valid()
      && bufferSize == |Flat(ls)| <= buffer.Length
      && buffer[..bufferSize] == Flat(ls)
      && Table() == Starts(ls)
    }

    /** Doubles the line table when it is full. */
    method CheckUpdateLinesReserved()
      requires Valid()
      modifies this`lines, this`linesReserved
      ensures Valid() && linesSize < linesReserved
      ensures Table() == old(Table())
      ensures lines == old(lines) || fresh(lines)
      ensures linesReserved == if linesSize < old(linesReserved) then old(linesReserved) else 2 * old(linesReserved)
    {
      if linesSize >= linesReserved {
        linesReserved := 2 * linesReserved;
        var newLines := new nat[linesReserved];
        forall i | 0 <= i < lines.Length {
          newLines[i] := lines[i];
        }
        lines := newLines;
      }
    }

    method AddLine(start: nat)
      requires Valid()
      modifies this`lines, this`linesReserved, this`linesSize, lines
      ensures Valid() && Table() == old(Table()) + [start]
      ensures lines == old(lines) || fresh(lines)
    {
      CheckUpdateLinesReserved();
      lines[linesSize] := start;
      linesSize := linesSize + 1;
    }

    /** The lines that are done, what has been written of the current one, and the write cursor. */
    ghost predicate Written(done: seq<string>, cur: string, w: nat)
      reads this, lines, buffer
    {
      && Valid()
      && w <= buffer.Length
      && buffer[..w] == Flat(done) + cur
      && Table() == Starts(done + [cur])
    }

    /** From the read cursor on, the buffer still is what it was. */
    ghost predicate Unread(content: string, r: nat)
      reads this, buffer
    {
      && |content| < buffer.Length && r <= |content|
      && buffer[r..|content|] == content[r..] && buffer[|content|] == NUL
    }

    lemma WriteNext(before: seq<char>, done: seq<string>, cur: string, w: nat, c: char)
      requires w < |before| && before[..w] == Flat(done) + cur
      ensures before[w := c][..w + 1] == Flat(done) + (cur + [c])
    {
      assert before[w := c][..w + 1] == before[..w] + [c];
    }

    /** Everything up to the read cursor has been dealt with. */
    ghost predicate Ready(content: string, all: seq<string>, done: seq<string>, cur: string, r: nat, w: nat)
      reads this, lines, buffer
    {
      && lines as object != buffer && w <= r
      && Unread(content, r) && Written(done, cur, w) && Reading(all, done, cur, content[r..])
    }

    /** All lines are there, the last one ended at the write cursor. */
    ghost predicate Complete(all: seq<string>, w: nat)
      reads this, lines, buffer
    {
      && Valid() && lines as object != buffer && w < buffer.Length
      && Table() == Starts(all) && buffer[..w + 1] == Flat(all)
    }

    /** The lines read so far have ended at the write cursor. */
    ghost predicate Ended(content: string, all: seq<string>, done: seq<string>, r: nat, w: nat)
      reads this, lines, buffer
    {
      && Valid() && lines as object != buffer && w < r
      && Unread(content, r) && Skipping(all, done, content[r..])
      && buffer[..w + 1] == Flat(done) && Table() == Starts(done)
    }

    /** A newline ends the current line. */
    method TerminateLine(r: nat, w: nat, ghost all: seq<string>, ghost done: seq<string>, ghost cur: string,
                         ghost content: string)
      requires r < |content| && content[r] == '\n' && Ready(content, all, done, cur, r, w)
      modifies buffer
      ensures Ended(content, all, done + [cur], r + 1, w)
    {
      ghost var before := buffer[..];
      WriteNext(before, done, cur, w, NUL);
      Associative(Flat(done), cur, [NUL]);
      ReadNewline(all, done, cur, content[r..]);
      FlatAppend(done, cur);
      hide Reading, Skipping, Starts, Flat;
      buffer[w] := NUL;
      assert buffer[..w + 1] == before[w := NUL][..w + 1];
      assert buffer[r + 1..|content|] == before[r..|content|][1..];
    }

    /** Reads on over newlines. */
    method SkipNewlines(r0: nat, w: nat, ghost all: seq<string>, ghost done: seq<string>, ghost content: string)
      returns (r: nat)
      requires Ended(content, all, done, r0, w)
      ensures r0 <= r <= |content| < buffer.Length && Ended(content, all, done, r, w)
      ensures buffer[r] == (if r < |content| then content[r] else NUL) && buffer[r] != '\n'
    {
      r := r0;
      while buffer[r] == '\n'
        invariant r0 <= r <= |content| && Ended(content, all, done, r, w)
        decreases |content| - r
      {
        SkipNewline(all, done, content[r..]);
        hide Skipping, Starts, Flat;
        r := r + 1;
      }
    }

    /** The next line starts right behind the terminator of the last one. */
    method StartLine(r: nat, w: nat, ghost all: seq<string>, ghost done: seq<string>, ghost content: string)
      requires r < |content| && content[r] != '\n' && Ended(content, all, done, r, w)
      modifies this`lines, this`linesReserved, this`linesSize, lines, buffer
      ensures lines == old(lines) || fresh(lines)
      ensures Ready(content, all, done, [content[r]], r + 1, w + 2)
    {
      NextLine(all, done, content[r..]);
      StartsAppend(done, [content[r]]);
      hide Reading, Skipping, Starts, Flat;
      ghost var before := buffer[..];
      buffer[w + 1] := buffer[r];
      assert buffer[..w + 2] == before[..w + 1] + [content[r]];
      assert buffer[r + 1..|content|] == before[r..|content|][1..];
      AddLine(w + 1);
    }

    /** With the text read to its end, all lines are there. */
    lemma AllEnded(w: nat, all: seq<string>, done: seq<string>, content: string)
      requires Ended(content, all, done, |content|, w)
      ensures Complete(all, w)
    {
      assert content[|content|..] == "";
      ReadingEnds(all, done, "");
    }

    /** Any other character, already copied, belongs to the current line. */
    lemma TakeCharacter(r: nat, w: nat, all: seq<string>, done: seq<string>, cur: string, content: string)
      requires r < |content| && content[r] != '\n' && Ready(content, all, done, cur, r, w) && buffer[w] == buffer[r]
      ensures Ready(content, all, done, cur + [content[r]], r + 1, w + 1)
    {
      ReadCharacter(all, done, cur, content[r..]);
      WriteNext(buffer[..], done, cur, w, content[r]);
      assert buffer[..][w := content[r]] == buffer[..];
      StartsForget(done, cur, cur + [content[r]]);
      hide Reading, Starts, Flat, Split, NonEmpty;
    }

    /** Both cursors have moved on; copies the next character. */
    method CopyNext(r: nat, w: nat, ghost all: seq<string>, ghost done: seq<string>, ghost cur: string,
                    ghost content: string)
      requires Ready(content, all, done, cur, r, w)
      modifies buffer
      ensures Ready(content, all, done, cur, r, w) && buffer[w] == buffer[r]
      ensures buffer[r] == if r < |content| then content[r] else NUL
    {
      hide Reading, Starts, Flat;
      ghost var before := buffer[..];
      buffer[w] := buffer[r];
      assert buffer[..w] == before[..w];
      assert buffer[r..|content|] == before[r..|content|];
    }

    /** The terminator of the text ends the last line. */
    lemma LastLine(b: seq<char>, content: string, r: nat, all: seq<string>, done: seq<string>, cur: string, w: nat)
      requires r <= |content| && NUL !in content && w < |b| && b[w] == NUL
      requires r < |content| ==> content[r] == NUL
      requires Reading(all, done, cur, content[r..]) && b[..w] == Flat(done) + cur
      ensures all == done + [cur] && b[..w + 1] == Flat(all)
    {
      assert content[r..] == "";
      ReadingEnds(all, done, cur);
      WriteNext(b, done, cur, w, NUL);
      assert b[w := NUL] == b;
      Associative(Flat(done), cur, [NUL]);
      FlatAppend(done, cur);
    }

    /** Before each round: the next character is copied, or all lines are there. */
    ghost predicate Round(content: string, all: seq<string>, done: seq<string>, cur: string, r: nat, w: nat, more: bool)
      reads this, lines, buffer
    {
      if more then
        && Ready(content, all, done, cur, r, w)
        && buffer[w] == buffer[r] == if r < |content| then content[r] else NUL
      else Complete(all, w)
    }

    /** The round for a newline. */
    method NewlineRound(r0: nat, w0: nat, ghost all: seq<string>, ghost done: seq<string>, ghost cur: string,
                        ghost content: string)
      returns (r: nat, w: nat, more: bool, ghost cur': string)
      requires r0 < |content| && content[r0] == '\n' && NUL !in content && Ready(content, all, done, cur, r0, w0)
      modifies this`lines, this`linesReserved, this`linesSize, lines, buffer
      ensures lines == old(lines) || fresh(lines)
      ensures r0 < r <= |content| + 1 && Round(content, all, done + [cur], cur', r, w, more)
          && (more ==> r <= |content|)
      ensures w < buffer.Length
    {
      hide Ended, Reading, Skipping, Starts, Flat, Split, NonEmpty;
      w := w0;
      TerminateLine(r0, w, all, done, cur, content);
      r := SkipNewlines(r0 + 1, w, all, done + [cur], content);
      more := buffer[r] != NUL;
      cur' := "";
      if more {
        StartLine(r, w, all, done + [cur], content);
        cur' := [content[r]];
        r, w := r + 1, w + 2;
        CopyNext(r, w, all, done + [cur], cur', content);
      } else {
        AllEnded(w, all, done + [cur], content);
      }
    }

    /** The round for any other character. */
    method CharacterRound(r0: nat, w0: nat, ghost all: seq<string>, ghost done: seq<string>, ghost cur: string,
                          ghost content: string)
      returns (r: nat, w: nat)
      requires r0 < |content| && content[r0] != '\n' && Round(content, all, done, cur, r0, w0, true)
      modifies buffer
      ensures r == r0 + 1 && Round(content, all, done, cur + [content[r0]], r, w, true)
    {
      TakeCharacter(r0, w0, all, done, cur, content);
      hide Ready, Complete;
      r, w := r0 + 1, w0 + 1;
      CopyNext(r, w, all, done, cur + [content[r0]], content);
    }

    /** The first entry of the table; copies the first character. */
    method BufferStart(ghost content: string)
      requires Valid() && Table() == [] && Unread(content, 0) && lines as object != buffer
      modifies this`lines, this`linesReserved, this`linesSize, lines, buffer
      ensures lines == old(lines) || fresh(lines)
      ensures Round(content, Lines(content), [], "", 0, 0, true)
    {
      AddLine(0);
      ReadingStarts(content);
      NothingWritten();
      assert Starts([""]) == [0] && content[0..] == content;
      assert Ready(content, Lines(content), [], "", 0, 0);
      CopyNext(0, 0, Lines(content), [], "", content);
    }

    /** Splits the buffer in place: the write cursor never overtakes the read cursor. */
    method BufferReadLines(ghost content: string)
      requires Valid() && Table() == [] && Unread(content, 0) && NUL !in content && lines as object != buffer
      modifies this, lines, buffer
      ensures buffer == old(buffer) && Holds(Lines(content))
    {
      var r: nat, w: nat, more := 0, 0, true;
      ghost var all, done, cur := Lines(content), [], "";
      BufferStart(content);
      hide Ready, Complete, Lines, Flat, Starts;
      while more && buffer[w] != NUL
        invariant buffer == old(buffer) && (lines == old(lines) || fresh(lines)) && w < buffer.Length
            && r < buffer.Length + 1
        invariant Round(content, all, done, cur, r, w, more)
        decreases more, |content| - r
      {
        RoundCharacter(content, all, done, cur, r, w);
        if buffer[r] == '\n' {
          ghost var cur';
          r, w, more, cur' := NewlineRound(r, w, all, done, cur, content);
          done, cur := done + [cur], cur';
        } else {
          ghost var c := content[r];
          r, w := CharacterRound(r, w, all, done, cur, content);
          cur := cur + [c];
        }
      }
      if more {
        RoundEnds(content, all, done, cur, r, w);
      }
      bufferSize := w + 1;
      AllHeld(all, w);
    }

    /** Before a round, an unread character stands at both cursors. */
    lemma RoundCharacter(content: string, all: seq<string>, done: seq<string>, cur: string, r: nat, w: nat)
      requires Round(content, all, done, cur, r, w, true) && w < buffer.Length && buffer[w] != NUL
      ensures r < |content| < buffer.Length && buffer[r] == content[r] && Ready(content, all, done, cur, r, w)
    {
    }

    /** Where the terminator of the text has been copied, the last line ends. */
    lemma RoundEnds(content: string, all: seq<string>, done: seq<string>, cur: string, r: nat, w: nat)
      requires Round(content, all, done, cur, r, w, true) && NUL !in content && w < buffer.Length && buffer[w] == NUL
      ensures Complete(all, w)
    {
      LastLine(buffer[..], content, r, all, done, cur, w);
    }

    lemma AllHeld(all: seq<string>, w: nat)
      requires Complete(all, w) && bufferSize == w + 1
      ensures Holds(all)
    {
      assert |buffer[..w + 1]| == w + 1;
    }

    // ----- The same from a file

    /** The character at r has been fetched into the cell at the write cursor. */
    ghost predicate Fetched(file: File, all: seq<string>, done: seq<string>, cur: string, r: nat, w: nat)
      reads this, lines, buffer, file
    {
      && w <= r <= |file.content| < buffer.Length && file.pos == (if r < |file.content| then r + 1 else r)
      && lines as object != buffer
      && Written(done, cur, w) && Reading(all, done, cur, file.content[r..])
      && buffer[w] == (if r < |file.content| then file.content[r] else EOF_CHAR)
      && (r > 0 ==> file.content[r - 1] != '\n')
    }

    /** Before each round of the file reader. */
    ghost predicate FileRound(file: File, all: seq<string>, done: seq<string>, cur: string, r: nat, w: nat, more: bool)
      reads this, lines, buffer, file
    {
      if more then
        && Fetched(file, all, done, cur, r, w) && r <= |file.content| && w < buffer.Length
        && buffer[w] == (if r < |file.content| then file.content[r] else EOF_CHAR)
      else Complete(all, w) && EndsInNewline(file.content)
    }

    /** The loop over newlines in a file. */
    static method SkipFileNewlines(file: File, r0: nat, ghost all: seq<string>, ghost done: seq<string>)
      returns (r: nat, symb: Option<char>)
      requires r0 < |file.content| && file.content[r0] == '\n' && file.pos == r0 + 1
      requires Skipping(all, done, file.content[r0 + 1..])
      modifies file`pos
      ensures r0 < r <= |file.content| && file.pos == (if r < |file.content| then r + 1 else r)
      ensures symb == (if r < |file.content| then Some(file.content[r]) else None) && symb != Some('\n')
      ensures Skipping(all, done, file.content[r..]) && file.content[r - 1] == '\n'
    {
      r := r0 + 1;
      symb := file.Fgetc();
      while symb == Some('\n')
        invariant r0 < r <= |file.content| && file.pos == (if r < |file.content| then r + 1 else r)
        invariant symb == if r < |file.content| then Some(file.content[r]) else None
        invariant Skipping(all, done, file.content[r..]) && file.content[r - 1] == '\n'
        decreases |file.content| - r
      {
        SkipNewline(all, done, file.content[r..]);
        r := r + 1;
        symb := file.Fgetc();
      }
    }

    /** A newline ends the line; the first other character after it, if there is one, starts the next. */
    method FileNewlineRound(file: File, r0: nat, w0: nat, ghost all: seq<string>, ghost done: seq<string>,
                            ghost cur: string)
      returns (r: nat, w: nat, more: bool, ghost cur': string)
      requires r0 < |file.content| && file.content[r0] == '\n' && Fetched(file, all, done, cur, r0, w0)
      modifies this`lines, this`linesReserved, this`linesSize, lines, buffer, file`pos
      ensures lines == old(lines) || fresh(lines)
      ensures r0 < r <= |file.content| && FileRound(file, all, done + [cur], cur', r, w, more)
      ensures w < buffer.Length
    {
      hide *;
      ghost var content, done' := file.content, done + [cur];
      TerminateFileLine(file, r0, w0, all, done, cur);
      w, cur' := w0, "";
      var symb;
      r, symb := SkipFileNewlines(file, r0, all, done');
      more := symb.Some?;
      if more {
        FileStartLine(file, r, w, symb.value, all, done');
        cur' := [content[r]];
        r, w := r + 1, w + 2;
        FileRoundStarts(file, all, done', cur', r, w);
      } else {
        FileRoundEnds(file, all, done', r, w);
      }
    }

    /** Ends the current line at the newline at r. */
    method TerminateFileLine(file: File, r: nat, w: nat, ghost all: seq<string>, ghost done: seq<string>,
                             ghost cur: string)
      requires r < |file.content| && file.content[r] == '\n' && Fetched(file, all, done, cur, r, w)
      modifies buffer
      ensures Complete(done + [cur], w) && Skipping(all, done + [cur], file.content[r + 1..])
      ensures w <= r < |file.content| < buffer.Length && file.pos == r + 1
    {
      ghost var before := buffer[..];
      WriteNext(before, done, cur, w, NUL);
      Associative(Flat(done), cur, [NUL]);
      ReadNewline(all, done, cur, file.content[r..]);
      FlatAppend(done, cur);
      hide Reading, Skipping, Starts, Flat;
      buffer[w] := NUL;
      assert buffer[..w + 1] == before[w := NUL][..w + 1];
    }

    lemma FileRoundStarts(file: File, all: seq<string>, done: seq<string>, cur: string, r: nat, w: nat)
      requires Fetched(file, all, done, cur, r, w)
      ensures FileRound(file, all, done, cur, r, w, true) && w < buffer.Length
    {
    }

    /** Behind the last newline everything has been read. */
    lemma FileRoundEnds(file: File, all: seq<string>, done: seq<string>, r: nat, w: nat)
      requires Complete(done, w) && 0 < r <= |file.content| && Skipping(all, done, file.content[r..])
      requires r == |file.content| && file.content[r - 1] == '\n'
      ensures FileRound(file, all, done, "", r, w, false) && w < buffer.Length
    {
      assert file.content[r..] == "";
      ReadingEnds(all, done, "");
    }

    /** Puts the first character of the next line behind the terminator of the last one. */
    method FileStartLine(file: File, r: nat, w: nat, c: char, ghost all: seq<string>, ghost done: seq<string>)
      requires w < r < |file.content| < buffer.Length && file.pos == r + 1 && c == file.content[r] != '\n'
      requires Complete(done, w) && Skipping(all, done, file.content[r..])
      modifies this`lines, this`linesReserved, this`linesSize, lines, buffer, file`pos
      ensures lines == old(lines) || fresh(lines)
      ensures Fetched(file, all, done, [c], r + 1, w + 2)
    {
      NextLine(all, done, file.content[r..]);
      StartsAppend(done, [c]);
      hide Reading, Skipping, Starts, Flat;
      ghost var before := buffer[..];
      buffer[w + 1] := c;
      AddLine(w + 1);
      assert buffer[..w + 2] == before[..w + 1] + [c];
      FileNext(file, r, w + 1, all, done, [c]);
    }

    /** The character at r has been taken; fetches the next one. */
    method FileNext(file: File, r: nat, w: nat, ghost all: seq<string>, ghost done: seq<string>, ghost cur: string)
      requires w <= r < |file.content| < buffer.Length && file.pos == r + 1 && file.content[r] != '\n'
      requires lines as object != buffer && Written(done, cur, w + 1) && Reading(all, done, cur, file.content[r + 1..])
      modifies buffer, file`pos
      ensures Fetched(file, all, done, cur, r + 1, w + 1)
    {
      hide Reading, Starts, Flat;
      ghost var before := buffer[..];
      var c := file.Fgetc();
      buffer[w + 1] := Cell(c);
      assert buffer[..w + 1] == before[..w + 1];
    }

    /** Any other character belongs to the current line. */
    method FileCharacterRound(file: File, r0: nat, w0: nat, ghost all: seq<string>, ghost done: seq<string>,
                              ghost cur: string)
      returns (r: nat, w: nat)
      requires Fetched(file, all, done, cur, r0, w0) && r0 < |file.content| && file.content[r0] != '\n'
      modifies buffer, file`pos
      ensures r == r0 + 1 && FileRound(file, all, done, cur + [file.content[r0]], r, w, true)
    {
      ghost var c := file.content[r0];
      ReadCharacter(all, done, cur, file.content[r0..]);
      WriteNext(buffer[..], done, cur, w0, c);
      assert buffer[..][w0 := c] == buffer[..];
      StartsForget(done, cur, cur + [c]);
      hide Reading, Starts, Flat;
      FileNext(file, r0, w0, all, done, cur + [c]);
      r, w := r0 + 1, w0 + 1;
    }

    /** What the file reader leaves when its last line has ended at the write cursor. */
    ghost predicate FileDone(content: string, w: nat)
      reads this, lines, buffer
    {
      var ls := Lines(content);
      && Valid() && Table() == Starts(ls)
      && w + 1 == |Flat(ls)| <= buffer.Length
      && buffer[..w + 1] == FlatWith(ls, if EndsInNewline(content) then NUL else EOF_CHAR)
    }

    /** At the end of a file without a last newline the terminator is overwritten. */
    lemma FileLastLine(file: File, done: seq<string>, cur: string, w: nat)
      requires Fetched(file, Lines(file.content), done, cur, |file.content|, w)
      ensures FileDone(file.content, w)
    {
      var all := Lines(file.content);
      assert file.content[|file.content|..] == "";
      ReadingEnds(all, done, cur);
      FlatAppend(done, cur);
      assert buffer[..w + 1] == buffer[..w] + [EOF_CHAR];
      assert Flat(all)[..w] == Flat(done) + cur;
    }

    lemma FileComplete(content: string, w: nat)
      requires Complete(Lines(content), w) && EndsInNewline(content)
      ensures FileDone(content, w)
    {
      FlatWithTerminator(Lines(content));
    }

    /** What the file reader leaves is the lines of the file, terminated, exactly
        if the file ends in a newline. */
    lemma TerminatedExactlyIf(content: string)
      requires bufferSize > 0 && FileDone(content, bufferSize - 1)
      ensures Holds(Lines(content)) <==> EndsInNewline(content)
    {
      var ls := Lines(content);
      FlatWithTerminator(ls);
      assert ls == ls[..|ls| - 1] + [ls[|ls| - 1]];
      FlatAppend(ls[..|ls| - 1], ls[|ls| - 1]);
      assert Flat(ls)[bufferSize - 1] == NUL;
      if !EndsInNewline(content) {
        assert buffer[..bufferSize][bufferSize - 1] == EOF_CHAR;
      }
    }

    /** The same, cell by cell. */
    lemma DoneCells(content: string)
      requires bufferSize > 0 && FileDone(content, bufferSize - 1)
      ensures Valid() && Table() == Starts(Lines(content)) && bufferSize == |Flat(Lines(content))| <= buffer.Length
      ensures forall i :: 0 <= i < bufferSize - 1 ==> buffer[i] == Flat(Lines(content))[i]
      ensures buffer[bufferSize - 1] == if EndsInNewline(content) then NUL else EOF_CHAR
    {
      hide Lines, Flat, Starts;
      var last := if EndsInNewline(content) then NUL else EOF_CHAR;
      var n, flat := bufferSize - 1, Flat(Lines(content));
      FlatWithLast(Lines(content), last);
      assert forall i :: 0 <= i <= n ==> buffer[i] == buffer[..n + 1][i];
    }

    /** The first entry of the table and the first character. */
    method FileStart(file: File)
      requires Valid() && Table() == [] && lines as object != buffer
      requires buffer.Length == |file.content| + 1 && file.pos == 0
      modifies this`lines, this`linesReserved, this`linesSize, lines, buffer, file`pos
      ensures lines == old(lines) || fresh(lines)
      ensures FileRound(file, Lines(file.content), [], "", 0, 0, true)
    {
      AddLine(0);
      ReadingStarts(file.content);
      NothingWritten();
      assert Starts([""]) == [0] && file.content[0..] == file.content;
      var c := file.Fgetc();
      buffer[0] := Cell(c);
    }

    /** Reads a file into the buffer.  The table is right for every content; the
        last line is terminated exactly if the file ends in a newline. */
    method FileReadLines(file: File)
      requires Valid() && Table() == [] && lines as object != buffer
      requires buffer.Length == |file.content| + 1 && file.pos == 0 && EOF_CHAR !in file.content
      modifies this, lines, buffer, file`pos
      ensures buffer == old(buffer) && bufferSize > 0 && FileDone(file.content, bufferSize - 1)
    {
      hide Complete, Lines, Fetched, Written, Reading, Skipping, Starts, Flat, FlatWith, Split, NonEmpty, EndsInNewline;
      var r: nat, w: nat, more := 0, 0, true;
      ghost var all, done, cur := Lines(file.content), [], "";
      FileStart(file);
      while more && buffer[w] != EOF_CHAR
        invariant buffer == old(buffer) && (lines == old(lines) || fresh(lines)) && w < buffer.Length
        invariant FileRound(file, all, done, cur, r, w, more)
        decreases more, |file.content| - r
      {
        if buffer[w] == '\n' {
          ghost var cur';
          r, w, more, cur' := FileNewlineRound(file, r, w, all, done, cur);
          done, cur := done + [cur], cur';
        } else {
          ghost var c := file.content[r];
          r, w := FileCharacterRound(file, r, w, all, done, cur);
          cur := cur + [c];
        }
      }
      if more {
        FileLastLine(file, done, cur, w);
      } else {
        FileComplete(file.content, w);
      }
      bufferSize := w + 1;
    }
  }

  /** The text before the first terminator. */
  function CString(bytes: seq<char>): string
    ensures CString(bytes) <= bytes && NUL !in CString(bytes)
    ensures NUL in bytes ==> |CString(bytes)| < |bytes| && bytes[|CString(bytes)|] == NUL
  {
    if bytes == [] || bytes[0] == NUL then [] else [bytes[0]] + CString(bytes[1..])
  }

  /** Copies a buffer and reads its lines in place.  The terminator that is put
      at the end is overwritten by the copy; it comes to nothing if the buffer
      holds none, because the program then reads on behind its end. */
  method TextBufferInit(bytes: seq<char>) returns (text: Option<Text>)
    ensures text == None <==> NUL !in bytes
    ensures text.Some? ==> fresh(text.value) && text.value.Holds(Lines(CString(bytes)))
  {
    if |bytes| == 0 {
      return None;
    }
    var t := new Text(|bytes|);
    t.buffer[|bytes| - 1] := NUL;
    var i := 0;
    while i < |bytes|
      invariant 0 <= i <= |bytes| == t.buffer.Length && fresh(t.buffer) && fresh(t.lines)
      invariant t.Valid() && t.Table() == [] && t.buffer[..i] == bytes[..i]
    {
      t.buffer[i] := bytes[i];
      i := i + 1;
    }
    if NUL !in bytes {
      return None;
    }
    ghost var content := CString(bytes);
    assert t.buffer[..] == bytes;
    assert t.buffer[0..|content|] == bytes[..|content|] == content;
    t.BufferReadLines(content);
    return Some(t);
  }

  /** Reads the lines of a whole file.  For every content the table, the size and
      all characters before the last are those of its lines; the last one is their
      terminator if the file ends in a newline, and the end-of-file value otherwise. */
  method TextFileInit(file: File) returns (t: Text)
    requires EOF_CHAR !in file.content
    modifies file`pos
    ensures fresh(t) && t.Valid() && t.Table() == Starts(Lines(file.content))
    ensures 0 < t.bufferSize == |Flat(Lines(file.content))| <= t.buffer.Length
    ensures forall i :: 0 <= i < t.bufferSize - 1 ==> t.buffer[i] == Flat(Lines(file.content))[i]
    ensures t.buffer[t.bufferSize - 1] ==
              if file.content != "" && file.content[|file.content| - 1] == '\n' then NUL else 255 as char
    ensures t.Holds(Lines(file.content)) <==> EndsInNewline(file.content)
  {
    file.pos := 0;
    t := new Text(|file.content| + 1);
    t.FileReadLines(file);
    t.TerminatedExactlyIf(file.content);
    t.DoneCells(file.content);
  }

  /** A stream of characters. */
  class File {
    const content: string
    var pos: nat

    constructor (content: string)
      ensures this.content == content && pos == 0
    {
      this.content := content;
      pos := 0;
    }

    method Fgetc() returns (c: Option<char>)
      modifies this`pos
      ensures if old(pos) < |content| then c == Some(content[old(pos)]) && pos == old(pos) + 1
              else c == None && pos == old(pos)
    {
      if pos < |content| {
        c := Some(content[pos]);
        pos := pos + 1;
      } else {
        c := None;
      }
    }
  }

  /** The conversion of what fgetc returns to a char. */
  function Cell(c: Option<char>): char {
    if c.Some? then c.value else EOF_CHAR
  }

  predicate EndsInNewline(s: string) {
    s != "" && s[|s| - 1] == '\n'
  }

  /** The flat lines with c in place of the last terminator. */
  function FlatWith(ls: seq<string>, c: char): string {
    if ls == [] then "" else Flat(ls)[..|Flat(ls)| - 1] + [c]
  }

  lemma FlatWithLast(ls: seq<string>, c: char)
    requires Flat(ls) != ""
    ensures |FlatWith(ls, c)| == |Flat(ls)| && FlatWith(ls, c)[|Flat(ls)| - 1] == c
    ensures forall i :: 0 <= i < |Flat(ls)| - 1 ==> FlatWith(ls, c)[i] == Flat(ls)[i]
  {
  }

  lemma FlatWithTerminator(ls: seq<string>)
    ensures FlatWith(ls, NUL) == Flat(ls)
  {
  }

  lemma NothingWritten()
    ensures Flat([]) + "" == "" && [] + [""] == [""]
  {
  }
}
