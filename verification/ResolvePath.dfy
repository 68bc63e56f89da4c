/** Joining a directory and a relative name, in the two ways of logger/helpers.c. */
module ResolvePath {
  import opened Sequences
  import opened PathText
  import opened RightPass
  import opened LeftPass
  import opened KernelPath
  import opened List

  // ----- Going up in the text of a directory

  /** The first q components of a directory without the last slash, of which the
      last one is cut to t characters. */
  ghost predicate Scanning(names: seq<string>, q: int, t: int, length: int) {
    && 0 <= q <= |names|
    && (q == 0 ==> length == 0)
    && (q > 0 ==> 0 <= t <= |names[q - 1]| && length == |Text(names[..q - 1])| + t)
  }

  lemma ScanStarts(names: seq<string>)
    ensures Scanning(names, |names|, if names == [] then 0 else |names[|names| - 1]|, |Text(names)| - 1)
  {
    if names != [] {
      assert names[..|names|] == names;
      TextPrefix(names, |names|);
    }
  }

  /** One character to the left: a slash ends a component, and is the first
      character if there are no more. */
  lemma ScanStep(names: seq<string>, q: int, t: int, length: int)
    requires AllSlashFree(names) && Scanning(names, q, t, length) && length > 0
    ensures length <= |Text(names)|
    ensures t > 0 ==> Text(names)[length - 1] != '/' && Scanning(names, q, t - 1, length - 1)
    ensures t == 0 ==>
              && Text(names)[length - 1] == '/'
              && Scanning(names, q - 1, if q - 1 > 0 then |names[q - 2]| else 0, length - 1)
              && (q == 1 <==> length == 1)
  {
    TextPrefix(names, q);
    TextPrefix(names, q - 1);
    if t == 0 && q > 1 {
      assert names[..q - 1][..q - 2] == names[..q - 2];
      TextPrefix(names, q - 1);
    }
    if t > 0 {
      assert Text(names)[length - 1] == Text(names[..q])[length - 1] == names[q - 1][t - 1];
    }
  }

  /** The text up to and including the slash after the first q components. */
  lemma ScanEnds(names: seq<string>, q: int, t: int, length: int)
    requires Scanning(names, q, t, length) && (q > 0 ==> t == |names[q - 1]|)
    ensures length + 1 <= |Text(names)| && Text(names)[..length + 1] == Text(names[..q])
  {
    TextPrefix(names, q);
    if q > 0 {
      assert names[..q][..q - 1] == names[..q - 1];
    }
  }

  /** The same two steps in a buffer that holds the text. */
  lemma ScanStepIn(pd: PathDentries, names: seq<string>, q: int, t: int, at: int)
    requires pd.Holds(Text(names)) && AllSlashFree(names)
    requires Scanning(names, q, t, at + 1 - pd.offset) && pd.offset <= at
    ensures at < PATH_SIZE - 1
    ensures t > 0 ==> pd.data[at] != '/' && Scanning(names, q, t - 1, at - pd.offset)
    ensures t == 0 ==>
              && pd.data[at] == '/'
              && Scanning(names, q - 1, if q - 1 > 0 then |names[q - 2]| else 0, at - pd.offset)
              && (q == 1 <==> at == pd.offset)
  {
    ScanStep(names, q, t, at + 1 - pd.offset);
    assert pd.data[at] == pd.data[pd.offset..PATH_SIZE - 1][at - pd.offset];
  }

  lemma ScanEndsIn(pd: PathDentries, names: seq<string>, q: int, t: int, at: int)
    requires pd.Holds(Text(names)) && pd.offset <= at + 1
    requires Scanning(names, q, t, at + 1 - pd.offset) && (q > 0 ==> t == |names[q - 1]|)
    ensures at + 1 < PATH_SIZE - 1 && pd.data[pd.offset..at + 2] == Text(names[..q])
  {
    ScanEnds(names, q, t, at + 1 - pd.offset);
    var text, n := Text(names), at + 2 - pd.offset;
    assert pd.data[pd.offset..PATH_SIZE - 1] == text && n <= |text|;
    forall i | 0 <= i < n ensures pd.data[pd.offset..at + 2][i] == text[..n][i] {
      assert pd.data[pd.offset + i] == text[i];
    }
  }

  /** The last character of a directory's text is its last slash. */
  lemma LastSlash(pd: PathDentries, names: seq<string>)
    requires pd.Holds(Text(names))
    ensures pd.offset <= PATH_SIZE - 2 && pd.data[PATH_SIZE - 2] == '/'
    ensures Scanning(names, |names|, if names == [] then 0 else |names[|names| - 1]|, PATH_SIZE - 2 - pd.offset)
  {
    ScanStarts(names);
    assert pd.data[PATH_SIZE - 2] == pd.data[pd.offset..PATH_SIZE - 1][PATH_SIZE - 2 - pd.offset];
  }

  /** The end of the text of the directory parent levels up. */
  method FindParentDentry(pd: PathDentries, parent0: int, ghost names: seq<string>) returns (e: int)
    requires pd.Holds(Text(names)) && AllSlashFree(names)
    ensures pd.offset <= e < PATH_SIZE - 1
    ensures pd.data[pd.offset..e + 1] == Text(Drop(names, parent0))
  {
    var sptr, parent := PATH_SIZE - 2, parent0;
    LastSlash(pd, names);
    if parent <= 0 {
      return sptr;
    }
    if pd.data[sptr] == '/' {
      sptr := sptr - 1;
    }
    ghost var q, t := |names|, if names == [] then 0 else |names[|names| - 1]|;
    while parent > 0 && sptr >= pd.offset
      invariant pd.offset - 1 <= sptr <= PATH_SIZE - 3 && 0 <= q <= |names|
      invariant Scanning(names, q, t, sptr + 1 - pd.offset)
      invariant parent == parent0 - (|names| - q) && parent >= 0
      invariant q == 0 <==> sptr == pd.offset - 1
      invariant parent == 0 && q > 0 ==> t == |names[q - 1]|
    {
      hide pd.Holds, Text, Slashed, Scanning, AllSlashFree;
      ScanStepIn(pd, names, q, t, sptr);
      if pd.data[sptr] == '/' {
        parent := parent - 1;
        q := q - 1;
        t := if q > 0 then |names[q - 1]| else 0;
      } else {
        t := t - 1;
      }
      sptr := sptr - 1;
    }
    hide pd.Holds, Text, Slashed, Scanning, AllSlashFree;
    ScanEndsIn(pd, names, q, t, sptr);
    assert names[..q] == Drop(names, parent0);
    return sptr + 1;
  }

  /** The same search in get_dir_cptr.  It never looks at the first character, so
      on the root directory it answers with the place before it. */
  method GetDirCptr(pd: PathDentries, parents0: nat, ghost names: seq<string>) returns (cptr: int)
    requires pd.Holds(Text(names)) && AllSlashFree(names)
    ensures pd.offset - 1 <= cptr < PATH_SIZE - 1
    ensures names == [] && parents0 > 0 ==> cptr == pd.offset - 1
    ensures names != [] || parents0 == 0 ==> pd.data[pd.offset..cptr + 1] == Text(Drop(names, parents0))
  {
    var parents := parents0;
    cptr := PATH_SIZE - 2;
    LastSlash(pd, names);
    if parents == 0 {
      return;
    }
    cptr := cptr - 1;
    var start := pd.offset;
    ghost var q, t := |names|, if names == [] then 0 else |names[|names| - 1]|;
    while cptr > start
      invariant start - 1 <= cptr <= PATH_SIZE - 3 && 0 <= q <= |names|
      invariant Scanning(names, q, t, cptr + 1 - start)
      invariant parents == parents0 - (|names| - q) && parents > 0
      invariant q == 0 <==> cptr == start - 1
      invariant names == [] <==> cptr == start - 1
    {
      hide pd.Holds, Text, Slashed, Scanning, AllSlashFree;
      ScanStepIn(pd, names, q, t, cptr);
      if pd.data[cptr] == '/' {
        parents := parents - 1;
        q := q - 1;
        t := if q > 0 then |names[q - 1]| else 0;
        if parents == 0 {
          ScanEndsIn(pd, names, q, t, cptr - 1);
          assert names[..q] == Drop(names, parents0);
          return;
        }
      } else {
        t := t - 1;
      }
      cptr := cptr - 1;
    }
    if names != [] {
      ScanStepIn(pd, names, q, t, cptr);
      FirstCharacter(names, q, t);
      ScanEndsIn(pd, names, 0, 0, cptr - 1);
      assert names[..0] == Drop(names, parents0);
    }
  }

  /** The first character is the slash before the first component. */
  lemma FirstCharacter(names: seq<string>, q: int, t: int)
    requires Scanning(names, q, t, 1)
    ensures q == 1 && t == 0
  {
    LaterCharacter(names, q, t, 1);
  }

  lemma LaterCharacter(names: seq<string>, q: int, t: int, length: int)
    requires Scanning(names, q, t, length)
    ensures q > 1 ==> length > 1
  {
    if q > 1 {
      assert |Slashed(names[..q - 1])| > 0;
    }
  }

  // ----- The right-to-left pass in the program

  /** The pass over str has come down to sptr and copied out. */
  ghost predicate Passing(str: string, sptr: int, parent: nat, copied: string)
    requires -1 <= sptr < |str|
  {
    var (out, left) := RightToLeft(str[..sptr + 1], parent);
    RightToLeft(str, 0) == (out + copied, left)
  }

  lemma PassStarts(str: string)
    requires str != ""
    ensures Passing(str, |str| - 1, 0, [])
  {
    assert str[..|str|] == str;
    assert RightToLeft(str, 0).0 + [] == RightToLeft(str, 0).0;
  }

  lemma PassEnds(str: string, parent: nat, copied: string)
    requires str != "" && Passing(str, -1, parent, copied)
    ensures RightToLeft(str, 0) == (copied, parent)
  {
    assert str[..0] == "" && [] + copied == copied;
  }

  /** The cases of one step of the pass, by index. */
  lemma PassStep(str: string, sptr: int, parent: nat, copied: string)
    requires 0 <= sptr < |str| && Passing(str, sptr, parent, copied)
    ensures str[sptr] == '/' && sptr >= 1 && str[sptr - 1] == '.' ==>
              if sptr >= 2 && str[sptr - 2] == '.' then Passing(str, sptr - 3, parent + 1, copied)
              else Passing(str, sptr - 2, parent, copied)
    ensures str[sptr] == '/' && sptr >= 1 && str[sptr - 1] == '/' ==> Passing(str, sptr - 1, parent, copied)
    ensures str[sptr] == '/' && (sptr == 0 || (str[sptr - 1] != '.' && str[sptr - 1] != '/')) && parent > 0 ==>
              Passing(str, |WithoutComponent(str[..sptr])| - 1, parent - 1, copied)
    ensures str[sptr] != '/' || ((sptr == 0 || (str[sptr - 1] != '.' && str[sptr - 1] != '/')) && parent == 0) ==>
              Passing(str, sptr - 1, parent, [str[sptr]] + copied)
  {
    var s := str[..sptr + 1];
    assert s[..|s| - 1] == str[..sptr] && s[|s| - 1] == str[sptr];
    if str[sptr] == '/' && sptr >= 1 && str[sptr - 1] == '.' {
      assert str[..sptr][..sptr - 1] == str[..sptr - 1];
      if sptr >= 2 && str[sptr - 2] == '.' {
        assert str[..sptr - 1][..sptr - 2] == str[..sptr - 2];
      }
    } else if str[sptr] == '/' && sptr >= 1 && str[sptr - 1] == '/' {
    } else if str[sptr] == '/' && parent > 0 {
      var w := WithoutComponent(str[..sptr]);
      assert str[..|w|] == w;
    } else {
      Associative(RightToLeft(str[..sptr], parent).0, [str[sptr]], copied);
    }
  }

  /** The inner loop over one component. */
  method SkipComponent(str: string, sptr0: int) returns (sptr: int)
    requires 0 <= sptr0 < |str|
    ensures 0 <= sptr <= sptr0 && sptr == |WithoutComponent(str[..sptr0])|
  {
    sptr := sptr0;
    while sptr - 1 >= 0 && str[sptr - 1] != '/'
      invariant 0 <= sptr <= sptr0 && WithoutComponent(str[..sptr]) == WithoutComponent(str[..sptr0])
    {
      assert str[..sptr][..sptr - 1] == str[..sptr - 1];
      sptr := sptr - 1;
    }
    assert str[..sptr] != "" ==> str[..sptr][sptr - 1] == '/';
  }

  method PutInFront(buffer: array<char>, dptr: int, c: char)
    requires 0 <= dptr < buffer.Length
    modifies buffer
    ensures buffer[dptr..] == [c] + old(buffer[dptr + 1..])
  {
    buffer[dptr] := c;
  }

  /** Copies the kept part of the terminated name to the end of the buffer. */
  method CopyKept(str: string, buffer: array<char>) returns (dptr: int, parent: nat)
    requires 0 < |str| <= buffer.Length
    modifies buffer
    ensures -1 <= dptr < buffer.Length
    ensures RightToLeft(str, 0) == (buffer[dptr + 1..], parent)
    ensures dptr + 1 + |RightToLeft(str, 0).0| == buffer.Length && |RightToLeft(str, 0).0| <= |str|
  {
    hide *;
    dptr, parent := buffer.Length - 1, 0;
    var sptr := |str| - 1;
    PassStarts(str);
    assert buffer[dptr + 1..] == [];
    RightToLeftLength(str, 0);
    while sptr >= 0 && dptr >= 0
      invariant -1 <= sptr < |str| && sptr + (buffer.Length - |str|) <= dptr < buffer.Length
      invariant Passing(str, sptr, parent, buffer[dptr + 1..])
      decreases sptr
    {
      PassStep(str, sptr, parent, buffer[dptr + 1..]);
      if str[sptr] == '/' && sptr - 1 >= 0 && str[sptr - 1] == '.' {
        sptr := sptr - 1;
        if sptr - 1 >= 0 && str[sptr - 1] == '.' {
          parent := parent + 1;
          sptr := sptr - 1;
        }
      } else if str[sptr] == '/' && sptr - 1 >= 0 && str[sptr - 1] == '/' {
        // Of several slashes the leftmost is looked at again.
      } else if str[sptr] == '/' && parent > 0 {
        sptr := SkipComponent(str, sptr);
        parent := parent - 1;
      } else {
        PutInFront(buffer, dptr, str[sptr]);
        dptr := dptr - 1;
      }
      sptr := sptr - 1;
    }
    PassEnds(str, parent, buffer[dptr + 1..]);
  }

  /** What resolve_full_path makes of a directory and a name. */
  function FullPath(names: seq<string>, filename: string, size: nat): string {
    var (out, left) := RightToLeft(filename, 0);
    var full := Text(Drop(names, left)) + out;
    if filename != "" && filename[0] == '/' then "/" + out
    else if |full| + 1 <= size then full
    else out
  }

  /** Copies data[start..=end] in front of dptr, last character first. */
  method CopyBack(data: array<char>, start: int, end: int, buffer: array<char>, dptr0: int) returns (dptr: int)
    requires data != buffer && 0 <= start <= end < data.Length
    requires 0 <= dptr0 < buffer.Length && dptr0 - (end - start) >= 0
    modifies buffer
    ensures dptr == dptr0 - (end - start) - 1
    ensures buffer[dptr + 1..] == data[start..end + 1] + old(buffer[dptr0 + 1..])
  {
    var cwdEnd := end;
    dptr := dptr0;
    while cwdEnd >= start
      invariant start - 1 <= cwdEnd <= end && dptr0 - dptr == end - cwdEnd
      invariant forall i :: cwdEnd < i <= end ==> buffer[dptr0 - (end - i)] == data[i]
      invariant forall i :: dptr0 < i < buffer.Length ==> buffer[i] == old(buffer[i])
    {
      buffer[dptr] := data[cwdEnd];
      cwdEnd := cwdEnd - 1;
      dptr := dptr - 1;
    }
    assert buffer[dptr + 1..dptr0 + 1] == data[start..end + 1];
    assert buffer[dptr + 1..] == buffer[dptr + 1..dptr0 + 1] + buffer[dptr0 + 1..];
  }

  /** Writes the joined path to the end of the buffer and says where it starts.
      It comes to nothing for an absolute name that leaves no room for one more
      slash: the program writes that in front of the buffer. */
  method ResolveFullPath(cwd: PathDentries, filename: string, buffer: array<char>, ghost names: seq<string>)
    returns (start: Option<int>)
    requires cwd.Holds(Text(names)) && AllSlashFree(names) && buffer != cwd.data
    requires |filename| + 1 <= buffer.Length
    modifies buffer
    ensures start == None <==> !Relative(filename) && |FullPath(names, filename, buffer.Length)| + 1 > buffer.Length
    ensures start.Some? ==>
              && 0 <= start.value < buffer.Length
              && buffer[start.value..] == FullPath(names, filename, buffer.Length) + [NUL]
  {
    var str := filename + [NUL];
    TailCopied(filename, [NUL], 0);
    ghost var out := RightToLeft(filename, 0).0;
    var dptr, parent := CopyKept(str, buffer);
    ghost var kept := buffer[dptr + 1..];
    assert kept == out + [NUL];
    hide RightToLeft, Text;
    if str[0] == '/' {
      if dptr < 0 {
        return None;
      }
      buffer[dptr] := '/';
      assert buffer[dptr..] == ['/'] + kept;
      Associative("/", out, [NUL]);
      return Some(dptr);
    }
    var cwdEnd := FindParentDentry(cwd, parent, names);
    var cwdStart := cwd.offset;
    var cwdSize := cwdEnd - cwdStart;
    if dptr - cwdSize >= 0 {
      dptr := CopyBack(cwd.data, cwdStart, cwdEnd, buffer, dptr);
      Associative(Text(Drop(names, parent)), out, [NUL]);
    }
    dptr := dptr + 1;
    return Some(dptr);
  }

  // ----- The left-to-right pass in the program

  /** A component of a name: its first and its last character. */
  datatype Range = Range(start: int, end: int)

  predicate InName(filename: string, rs: seq<Range>) {
    forall k :: 0 <= k < |rs| ==> 0 <= rs[k].start <= rs[k].end < |filename|
  }

  function Texts(filename: string, rs: seq<Range>): seq<string>
    requires InName(filename, rs)
  {
    seq(|rs|, k requires 0 <= k < |rs| => filename[rs[k].start..rs[k].end + 1])
  }

  /** The loop over one component. */
  method ComponentEnd(filename: string, i: nat) returns (end: nat)
    requires i < |filename|
    ensures i <= end < |filename| && end + 1 == i + FirstEnd(filename[i..])
  {
    end := i;
    while end + 1 < |filename| && filename[end] != '/'
      invariant i <= end < |filename| && end + FirstEnd(filename[end..]) == i + FirstEnd(filename[i..])
    {
      assert filename[end..][1..] == filename[end + 1..];
      end := end + 1;
    }
  }

  /** The pass has come to index i with this list and so many parents. */
  ghost predicate Walking(filename: string, i: nat, rs: seq<Range>, ups: nat)
    requires i <= |filename| && InName(filename, rs)
  {
    LeftToRight(filename, [], 0) == LeftToRight(filename[i..], Texts(filename, rs), ups)
  }

  lemma WalkStep(filename: string, i: nat, rs: seq<Range>, ups: nat)
    requires i < |filename| && InName(filename, rs) && Walking(filename, i, rs, ups)
    ensures var s := filename[i..];
            if s[0] == '.' && |s| > 1 && s[1] == '/' then Walking(filename, i + 2, rs, ups)
            else if s[0] == '.' && |s| > 1 && s[1] == '.' then
              if i + 3 > |filename| then LeftToRight(filename, [], 0) == Overrun
              else if rs != [] then Walking(filename, i + 3, rs[..|rs| - 1], ups)
              else Walking(filename, i + 3, rs, ups + 1)
            else Walking(filename, i + FirstEnd(s), rs + [Range(i, i + FirstEnd(s) - 1)], ups)
  {
    hide LeftToRight, FirstEnd, Texts;
    var s := filename[i..];
    var e := FirstEnd(s);
    assert |s| > 1 ==> s[2..] == filename[i + 2..];
    assert |s| > 2 ==> s[3..] == filename[i + 3..];
    assert s[e..] == filename[i + e..] && s[..e] == filename[i..i + e - 1 + 1];
    TextsGrow(filename, rs, Range(i, i + e - 1));
    LeftToRightStep(s, Texts(filename, rs), ups);
  }

  lemma TextsGrow(filename: string, rs: seq<Range>, r: Range)
    requires InName(filename, rs) && 0 <= r.start <= r.end < |filename|
    ensures InName(filename, rs + [r])
    ensures Texts(filename, rs + [r]) == Texts(filename, rs) + [filename[r.start..r.end + 1]]
    ensures rs != [] ==> Texts(filename, rs[..|rs| - 1]) == Texts(filename, rs)[..|rs| - 1]
    ensures |Texts(filename, rs)| == |rs|
  {
  }

  /** One round of the pass: a dot, a dot-dot or a component. */
  method NextComponent(filename: string, i0: nat, head: Node<Range>, ups0: nat, ghost s0: seq<Node<Range>>)
    returns (i: nat, ups: nat, ghost s: seq<Node<Range>>)
    requires i0 < |filename| && s0 != [] && s0[0] == head && Ring(s0)
    requires InName(filename, Entries(s0)) && Walking(filename, i0, Entries(s0), ups0)
    modifies s0
    ensures i0 < i && s != [] && s[0] == head && Ring(s)
    ensures forall k :: 0 < k < |s| ==> (k < |s0| && s[k] == s0[k]) || fresh(s[k])
    ensures InName(filename, Entries(s))
    ensures if i <= |filename| then Walking(filename, i, Entries(s), ups) else LeftToRight(filename, [], 0) == Overrun
  {
    hide LeftToRight, Walking, FirstEnd, Texts;
    i, ups, s := i0, ups0, s0;
    WalkStep(filename, i, Entries(s), ups);
    if filename[i] == '.' && i + 1 < |filename| && filename[i + 1] == '/' {
      i := i + 2;
    } else if filename[i] == '.' && i + 1 < |filename| && filename[i + 1] == '.' {
      if head != head.next {
        ListDeleteTail(head, s);
        s := s[..|s| - 1];
      } else {
        ups := ups + 1;
      }
      i := i + 3;
    } else {
      var end := ComponentEnd(filename, i);
      var offsets := new Node(Range(i, end));
      ListAddTail(offsets, head, s);
      s := s + [offsets];
      i := end + 1;
    }
  }

  /** Appends the components of a name to the list of head, and takes one off
      for every dot-dot; the parents it cannot take off are counted.  It comes to
      nothing when it steps over the terminator. */
  method GetFilenameCptrs(filename: string, head: Node<Range>) returns (ups: Option<nat>, ghost s: seq<Node<Range>>)
    requires Ring([head])
    modifies head
    ensures s != [] && s[0] == head && Ring(s) && (forall k :: 0 < k < |s| ==> fresh(s[k]))
    ensures InName(filename, Entries(s))
    ensures ups == None <==> StepsOver(Cut(filename).1)
    ensures match ups
            case Some(n) => LeftToRight(filename, [], 0) == Walk.Walk(Texts(filename, Entries(s)), n)
            case None => LeftToRight(filename, [], 0) == Overrun
  {
    hide LeftToRight, FirstEnd, Cut, StepsOver;
    OverrunExactly(filename, [], 0);
    var i, n := 0, 0;
    s := [head];
    assert filename[0..] == filename && Texts(filename, []) == [];
    while i < |filename|
      invariant 0 <= i && 0 <= n
      invariant s != [] && s[0] == head && Ring(s) && (forall k :: 0 < k < |s| ==> fresh(s[k]))
      invariant InName(filename, Entries(s))
      invariant if i <= |filename| then Walking(filename, i, Entries(s), n) else LeftToRight(filename, [], 0) == Overrun
      decreases |filename| - i
    {
      i, n, s := NextComponent(filename, i, head, n, s);
    }
    if i > |filename| {
      return None, s;
    }
    assert filename[i..] == "";
    LeftToRightEnds(Texts(filename, Entries(s)), n);
    return Some(n), s;
  }

  /** What fprint_relative_filename prints for a directory and a name. */
  function RelativeFilename(names: seq<string>, filename: string): Option<string> {
    if filename == "" then Some("")
    else
      match LeftToRight(filename, [], 0)
      case Walk(stack, ups) => Some((if names == [] && ups > 0 then "" else Text(Drop(names, ups))) + Concat(stack))
      case Overrun => None
  }

  /** Prints the components after what is there. */
  method PrintComponents(dir: string, filename: string, ranges: seq<Range>) returns (printed: string)
    requires InName(filename, ranges)
    ensures printed == dir + Concat(Texts(filename, ranges))
  {
    printed := dir;
    var i := 0;
    ghost var texts := Texts(filename, ranges);
    assert dir + Concat([]) == dir;
    while i < |ranges|
      invariant i <= |ranges| && printed == dir + Concat(texts[..i])
    {
      assert texts[..i + 1][..i] == texts[..i];
      Associative(dir, Concat(texts[..i]), texts[i]);
      printed := printed + filename[ranges[i].start..ranges[i].end + 1];
      i := i + 1;
    }
    assert texts[..|texts|] == texts;
  }

  /** Prints the resolved path, unless the pass over the name steps over its terminator. */
  method FprintRelativeFilename(filename: string, pd: PathDentries, ghost names: seq<string>)
    returns (printed: Option<string>)
    requires pd.Holds(Text(names)) && AllSlashFree(names)
    ensures printed == RelativeFilename(names, filename)
    ensures printed == None <==> StepsOver(Cut(filename).1)
  {
    hide LeftToRight, Text, Drop, Concat, Texts, Cut;
    if filename == "" {
      EmptyName();
      return Some("");
    }
    var head := new Node(Range(0, 0));
    var ups, s := GetFilenameCptrs(filename, head);
    if ups == None {
      return None;
    }
    var cptr := GetDirCptr(pd, ups.value, names);
    var dir := pd.data[pd.offset..cptr + 1];
    var ranges := ForEach(head, s);
    var text := PrintComponents(dir, filename, ranges);
    return Some(text);
  }

  lemma EmptyName()
    ensures !StepsOver(Cut("").1)
  {
  }

  // ----- What both programs are for

  /** resolve_full_path gives the lexically resolved path of a relative name if
      and only if it fits, the tail is neither dot nor dot-dot and no component
      that is followed by a slash ends in a dot, dot and dot-dot aside. */
  lemma FullPathResolves(names: seq<string>, filename: string, size: nat)
    requires Relative(filename)
    ensures FullPath(names, filename, size) == Resolved(names, filename) <==>
              && |Resolved(names, filename)| + 1 <= size
              && AllFromRight(Cut(filename).0) && !Dots(Cut(filename).1)
  {
    hide RightToLeft, Cut, Resolved, Text, AllFromRight, Dots, Drop, Copied;
    var (out, left) := RightToLeft(filename, 0);
    if AllFromRight(Cut(filename).0) && !Dots(Cut(filename).1) {
      RightToLeftCopies(names, filename);
      ResolvedCopies(names, filename);
      TextEnds(Drop(names, left));
      assert |Text(Drop(names, left)) + out| > |out|;
    } else {
      assert "" + out == out && "" + Resolved(names, filename) == Resolved(names, filename);
      OthersAreWrong(names, filename, Text(Drop(names, left)), "");
      OthersAreWrong(names, filename, "", "");
    }
  }

  lemma AbsoluteStarts(filename: string)
    requires !Relative(filename)
    ensures Cut(filename).0 != [] && Cut(filename).0[0] == ""
  {
    var (cs, t) := Cut(filename);
    hide Cut;
    assert Slashed([]) + t == t;
    if cs != [] {
      SlashedPrepend(cs[0], cs[1..]);
      assert [cs[0]] + cs[1..] == cs;
    }
  }

  /** What stands in front of the resolved path of an absolute name: one slash
      too many unless a dot-dot was left over at the root. */
  function Ahead(filename: string): string {
    if KeptFromRight(Cut(filename).0, 0).1 == 0 then "/" else ""
  }

  lemma AbsoluteCopies(filename: string)
    requires !Relative(filename) && AllFromRight(Cut(filename).0)
    ensures "/" + RightToLeft(filename, 0).0 == Ahead(filename) + Copied([], filename)
  {
    AbsoluteStarts(filename);
    var (cs, t) := Cut(filename);
    var (kept, ups) := KeptFromRight(cs, 0);
    hide RightToLeft, Cut, KeptFromRight, Slashed, Resolve;
    TailCopied(Slashed(cs), t, 0);
    AbsoluteFromRight(cs, 0);
    KeptFromRightResolves([], cs, 0);
    assert [] + kept == kept;
    Associative("/", Slashed(kept), t);
    Associative("/", "/" + Slashed(kept), t);
    assert "" + Text(kept) == Text(kept);
  }

  /** Of an absolute name it gives the resolved path, behind that slash, if and
      only if its tail and its components are like those. */
  lemma AbsoluteResolves(names: seq<string>, filename: string, size: nat)
    requires !Relative(filename)
    ensures FullPath(names, filename, size) == Ahead(filename) + Resolved([], filename) <==>
              AllFromRight(Cut(filename).0) && !Dots(Cut(filename).1)
  {
    hide RightToLeft, Cut, Resolved, Text, AllFromRight, Dots, Drop, Copied, Ahead;
    if AllFromRight(Cut(filename).0) && !Dots(Cut(filename).1) {
      AbsoluteCopies(filename);
      ResolvedCopies([], filename);
    } else {
      OthersAreWrong([], filename, "/", Ahead(filename));
    }
  }

  /** fprint_relative_filename gives the components resolved and the tail as it
      is of every name its pass is made for, except that from the root directory
      with parents left over it loses the leading slash. */
  lemma RelativeFilenameCopies(names: seq<string>, filename: string)
    requires AllFromLeft(Cut(filename).0) && !LeadingDots(Cut(filename).1) && filename != ""
    ensures var w, path := LeftToRight(filename, [], 0), Copied(names, filename);
            w.Walk? && RelativeFilename(names, filename) == Some(if names == [] && w.ups > 0 then path[1..] else path)
  {
    hide LeftToRight, Cut, Copied, Concat;
    LeftToRightCopies(names, filename);
    var w := LeftToRight(filename, [], 0);
    if names == [] && w.ups > 0 {
      assert Text(Drop(names, w.ups)) == "/";
      assert ("/" + Concat(w.stack))[1..] == Concat(w.stack);
      assert "" + Concat(w.stack) == Concat(w.stack);
    }
  }

  /** For every name: below the root it gives the resolved path if and only if
      the pass ends right; in the root as well if no parents are left over. */
  lemma RelativeFilenameExactly(filename: string)
    ensures (forall names :: names != [] ==> RelativeFilename(names, filename) == Some(Resolved(names, filename)))
              <==> filename != "" && EndsRight(filename) && !Dots(Cut(filename).1)
    ensures (forall names :: RelativeFilename(names, filename) == Some(Resolved(names, filename)))
              <==> filename != "" && EndsRight(filename) && !Dots(Cut(filename).1)
                   && KeptFromLeft(Cut(filename).0, [], 0).1 == 0
  {
    hide *;
    RightEverywhere(filename);
    forall names | names != []
      ensures RelativeFilename(names, filename) == (if filename == "" then Some("") else PathFromLeft(names, filename))
    {
      AsFromLeft(names, filename);
    }
    if filename == "" {
      var names := ["x"];
      PathNotEmpty(names, filename);
      assert names != [] && Some(Resolved(names, filename)) != Some("");
    } else if EndsRight(filename) && !Dots(Cut(filename).1) {
      AtTheRoot(filename);
    }
  }

  lemma AsFromLeft(names: seq<string>, filename: string)
    requires names != []
    ensures RelativeFilename(names, filename) == if filename == "" then Some("") else PathFromLeft(names, filename)
  {
  }

  lemma AtTheRoot(filename: string)
    requires filename != "" && EndsRight(filename) && !Dots(Cut(filename).1)
    ensures RelativeFilename([], filename) == Some(Resolved([], filename)) <==>
              KeptFromLeft(Cut(filename).0, [], 0).1 == 0
  {
    hide LeftToRight, Cut, Resolved, KeptFromLeft, Concat, Slashed, Copied;
    ResolvedCopies([], filename);
    CopiedKeeps([], filename);
    var u := KeptFromLeft(Cut(filename).0, [], 0).1;
    assert Text(Drop([], u)) == "/" by { TextOfRoot(); }
    var rest := Concat(LeftToRight(filename, [], 0).stack);
    assert "" + rest == rest && |"/" + rest| > |rest|;
  }

  /** So of the names without empty components it resolves those its pass is made for. */
  lemma RelativeFilenameResolves(filename: string)
    requires "" !in Cut(filename).0
    ensures (forall names :: names != [] ==> RelativeFilename(names, filename) == Some(Resolved(names, filename)))
              <==> filename != "" && MadeForLeft(filename)
    ensures (forall names :: RelativeFilename(names, filename) == Some(Resolved(names, filename)))
              <==> filename != "" && MadeForLeft(filename) && KeptFromLeft(Cut(filename).0, [], 0).1 == 0
  {
    hide *;
    RelativeFilenameExactly(filename);
    RightEverywhere(filename);
    LeftToRightResolves(filename);
  }

  /** The two programs agree exactly when no parents are left over at the root. */
  lemma ProgramsAgree(names: seq<string>, filename: string, size: nat)
    requires AllFromRight(Cut(filename).0) && AllFromLeft(Cut(filename).0) && !LeadingDots(Cut(filename).1)
    requires filename != "" && |Copied(names, filename)| + 1 <= size
    ensures LeftToRight(filename, [], 0).Walk?
    ensures Some(FullPath(names, filename, size)) == RelativeFilename(names, filename) <==>
              !(names == [] && LeftToRight(filename, [], 0).ups > 0)
  {
    assert Relative(filename) by {
      if !Relative(filename) { AbsoluteStarts(filename); }
    }
    hide LeftToRight, RightToLeft, Cut, Copied, RelativeFilename, Text, Drop;
    RightToLeftCopies(names, filename);
    RelativeFilenameCopies(names, filename);
    TextEnds(Drop(names, RightToLeft(filename, 0).1));
    var path := Copied(names, filename);
    assert path != "" && path[1..] != path;
  }

  lemma PathNotEmpty(names: seq<string>, filename: string)
    ensures |Resolved(names, filename)| > 0
  {
    hide Resolve, Cut, Slashed;
  }

  /** A name that is only a tail. */
  lemma OnlyTail(t: string)
    requires SlashFree(t)
    ensures Cut(t) == ([], t) && RightToLeft(t, 0) == (t, 0)
  {
    var none := "";
    assert RightToLeft(none, 0) == (none, 0) && Slashed([]) == none && none + t == t;
    hide *;
    CutSlashed([], t);
    TailCopied(none, t, 0);
  }

  lemma DotsSlashFree(t: string)
    requires Dots(t)
    ensures SlashFree(t)
  {
  }

  /** The plainest names that end like that: resolve_full_path copies dot and
      dot-dot, which lead to the directory itself and to the one above it. */
  lemma TailDotsCopied(names: seq<string>, t: string, size: nat)
    requires Dots(t) && |Text(names)| + |t| + 1 <= size
    ensures FullPath(names, t, size) == Text(names) + t
    ensures Resolved(names, t) == Text(if t == "." then names else Drop(names, 1))
  {
    DotsSlashFree(t);
    OnlyTail(t);
    assert t[0] != '/';
    DropNone(names);
    ResolvedEnters(names, t);
    hide RightToLeft, Cut, Resolved, Drop, Text;
    assert Resolve(names, []) == names;
  }

  /** And fprint_relative_filename copies dot. */
  lemma DotCopied(names: seq<string>)
    ensures RelativeFilename(names, ".") == Some(Text(names) + ".")
  {
    var dot := ".";
    NothingSlashed();
    LoneDot([], 0);
    assert Slashed([]) + dot == dot && [] + [dot] == [dot];
    assert Concat([dot]) == dot by { assert [dot][..0] == [] && Concat([]) + dot == dot; }
    DropNone(names);
    hide LeftToRight, Concat, Drop, Text, Slashed;
    assert LeftToRight(dot, [], 0) == Walk.Walk([dot], 0);
  }

  /** If the path does not fit, resolve_full_path gives what is left of it behind
      the directory that so many levels up; a name without dots is left as it is. */
  lemma TooLongForBuffer(names: seq<string>, filename: string, size: nat)
    requires Relative(filename) && AllFromRight(Cut(filename).0) && |Copied(names, filename)| + 1 > size
    ensures exists p: nat :: Copied(names, filename) == Text(Drop(names, p)) + FullPath(names, filename, size)
    ensures Cut(filename).0 == [] ==> FullPath(names, filename, size) == filename
  {
    hide RightToLeft, Cut, Copied, Text, AllFromRight, Drop, Slashed;
    RightToLeftCopies(names, filename);
    var (out, left) := RightToLeft(filename, 0);
    assert Copied(names, filename) == Text(Drop(names, left)) + FullPath(names, filename, size);
    if Cut(filename).0 == [] {
      NothingSlashed();
      assert Slashed([]) + Cut(filename).1 == Cut(filename).1;
      OnlyTail(Cut(filename).1);
    }
  }

  /** Of no name at all, resolve_full_path makes the directory and the other program nothing. */
  lemma NoName(names: seq<string>, size: nat)
    ensures FullPath(names, "", size) == if |Text(names)| + 1 <= size then Text(names) else ""
    ensures RelativeFilename(names, "") == Some("")
  {
    DropNone(names);
    var none := "";
    assert RightToLeft(none, 0) == (none, 0);
    hide Text, Drop, RightToLeft;
    assert Text(names) + none == Text(names);
  }

  /** A name outside their grammar: a component that ends in a dot.  One pass
      glues it to the next component, the other keeps it. */
  lemma DotAtTheEnd(a: char, b: char)
    requires a != '/' && a != '.' && b != '/' && b != '.'
    ensures RightToLeft([a, '.', '/', b], 0) == ([a, b], 0)
    ensures LeftToRight([a, '.', '/', b], [], 0) == Walk.Walk([[a, '.', '/'], [b]], 0)
  {
    var s := [a, '.', '/', b];
    assert s[..3] == [a, '.', '/'] && s[..3][..2] == [a, '.'] && [a, '.'][..1] == [a] && [a][..0] == "";
    assert RightToLeft([a], 0) == ([a], 0) by { assert "" + [a] == [a]; }
    assert RightToLeft([a, '.', '/'], 0) == ([a], 0);
    assert [a] + [b] == [a, b];
    var r := s[1..];
    assert r == ['.', '/', b] && r[1..] == ['/', b];
    assert FirstEnd(['/', b]) == 1 && FirstEnd(r) == 2 && FirstEnd(s) == 3;
    assert s[3..] == [b] && [b][1..] == "" && [b][..1] == [b] && FirstEnd([b]) == 1;
    assert s[..3] == [a, '.', '/'];
    assert [] + [s[..3]] == [[a, '.', '/']] && [[a, '.', '/']] + [[b]] == [[a, '.', '/'], [b]];
    assert LeftToRight([b], [[a, '.', '/']], 0) == Walk.Walk([[a, '.', '/'], [b]], 0);
  }

  // ----- From the kernel's chain to the resolved path

  /** A directory entry's name: not empty, no slash, not dot or dot-dot. */
  predicate EntryName(n: string) {
    n != "" && SlashFree(n) && n != "." && n != ".."
  }

  predicate AllEntryNames(names: seq<string>) {
    forall i :: 0 <= i < |names| ==> EntryName(names[i])
  }

  /** Nothing is left to resolve: a slash, directory entries each followed by a
      slash, and possibly one more entry. */
  predicate CleanPath(path: string) {
    && path != "" && path[0] == '/'
    && AllEntryNames(Cut(path[1..]).0)
    && (Cut(path[1..]).1 == "" || EntryName(Cut(path[1..]).1))
  }

  lemma {:induction false} ResolveKeepsEntries(names: seq<string>, cs: seq<string>)
    requires AllEntryNames(names) && AllSlashFree(cs)
    ensures AllEntryNames(Resolve(names, cs))
    decreases |cs|
  {
    if cs != [] {
      ResolveKeepsEntries(names, cs[..|cs| - 1]);
    }
  }

  lemma CleanText(names: seq<string>, t: string)
    requires AllEntryNames(names) && (t == "" || EntryName(t))
    ensures CleanPath(Text(names) + t)
  {
    hide Cut, Slashed;
    var path := Text(names) + t;
    assert path[1..] == Slashed(names) + t;
    CutSlashed(names, t);
  }

  /** The resolved path as a whole has no dot, dot-dot or empty component, its tail included. */
  lemma ResolvedIsClean(names: seq<string>, filename: string)
    requires AllEntryNames(names)
    ensures CleanPath(Resolved(names, filename))
  {
    var (cs, t) := Cut(filename);
    hide Cut, Resolve, Text, AllEntryNames, CleanPath, AllSlashFree, SlashFree;
    assert AllSlashFree(cs + [t]) by { hide *; LastSlashFree(cs, t); }
    ResolveKeepsEntries(names, cs);
    ResolveKeepsEntries(names, cs + [t]);
    if t == "" || Dots(t) {
      var path := Text(Resolve(names, cs + [t]));
      CleanText(Resolve(names, cs + [t]), "");
      assert path + "" == path;
    } else {
      CleanText(Resolve(names, cs), t);
    }
  }

  lemma LastSlashFree(cs: seq<string>, t: string)
    requires AllSlashFree(cs) && SlashFree(t)
    ensures AllSlashFree(cs + [t])
  {
  }

  /** The layout read_path leaves for a directory is the one the resolvers need:
      walking up the chain, as far as the program looks, and then joining a
      relative name gives its resolved path, under the condition of the join alone. */
  method ResolveFromKernel(k: Kernel, dentry: int, mount: int, filename: string, buffer: array<char>)
    returns (start: int)
    requires Located(k, dentry, mount) && AllEntryNames(Ancestry(k, dentry, mount))
    requires forall i :: 0 <= i < |Ancestry(k, dentry, mount)| ==> |Ancestry(k, dentry, mount)[i]| <= 254
    requires Relative(filename) && |filename| + 1 <= buffer.Length
    modifies buffer
    ensures 0 <= start < buffer.Length
    ensures var path := Resolved(Ancestry(k, dentry, mount), filename);
            && (buffer[start..] == path + [NUL] <==>
                  |path| + 1 <= buffer.Length && AllFromRight(Cut(filename).0) && !Dots(Cut(filename).1))
            && CleanPath(path)
  {
    ghost var names := Ancestry(k, dentry, mount);
    assert AllSlashFree(names);
    assert !MeetsFault(k, dentry, mount, {});
    hide *;
    var pd := new PathDentries();
    var r := ReadPath(k, dentry, mount, pd, true, {});
    StoredAsTheyAre(names);
    DirectoryAndFile(names);
    ResolvedIsClean(names, filename);
    FullPathResolves(names, filename, buffer.Length);
    var o := ResolveFullPath(pd, filename, buffer, names);
    ghost var full, path := FullPath(names, filename, buffer.Length), Resolved(names, filename);
    SameBefore(full, path, [NUL]);
    return o.value;
  }

  lemma SameBefore(x: string, y: string, z: string)
    ensures x + z == y + z <==> x == y
  {
    if x + z == y + z {
      assert |x + z| == |y + z|;
      assert x == (x + z)[..|x|] && y == (y + z)[..|y|];
    }
  }

  // ----- Comparing a list of ranges with a string

  /** A string of the length of str that starts with the ranges ends in the i-th one. */
  ghost predicate EndsIn(ranges: seq<string>, i: int, str: string)
    requires 0 < i <= |ranges|
  {
    |str| <= |Concat(ranges[..i])| && (i > 1 ==> |Concat(ranges[..i - 1])| < |str|)
  }

  /** Says whether str is a prefix of the ranges put together, by returning the
      range in which str ends. */
  method StrcmpDentryRanges(head: Node<string>, str: string, ghost s: seq<Node<string>>) returns (c: Node?<string>)
    requires Ring(s) && head == s[0]
    ensures c != null <==> |s| > 1 && str <= Concat(Entries(s))
    ensures c != null ==> exists i :: 0 < i < |s| && c == s[i] && EndsIn(Entries(s), i, str)
  {
    hide Concat;
    var p := 0;
    c := head.next;
    ghost var i := 1;
    ghost var all := Entries(s);
    ConcatNone(all);
    while c != head
      invariant 1 <= i <= |s| && c == (if i < |s| then s[i] else head) && p <= |str|
      invariant Concat(all[..i - 1]) == str[..p] && (i > 1 ==> p < |str|)
      decreases |s| - i
    {
      var range, ptr := c.entry, 0;
      while ptr < |range| && p < |str| && range[ptr] == str[p]
        invariant ptr <= |range| && p <= |str| && ptr <= p
        invariant Concat(all[..i - 1]) + range[..ptr] == str[..p]
      {
        PrefixGrows(Concat(all[..i - 1]), range, str, ptr, p);
        ptr, p := ptr + 1, p + 1;
      }
      ConcatNext(all, i - 1);
      ConcatPrefix(all, i);
      if p == |str| {
        PrefixFound(Concat(all[..i - 1]), range, str, ptr, Concat(all));
        assert EndsIn(all, i, str);
        return;
      }
      if ptr < |range| {
        PrefixMissed(Concat(all[..i - 1]), range, str, ptr, p, Concat(all));
        return null;
      }
      assert range[..ptr] == range;
      c := c.next;
      i := i + 1;
    }
    assert all[..|all|] == all;
    return null;
  }

  lemma PrefixGrows(before: string, range: string, str: string, ptr: nat, p: nat)
    requires ptr < |range| && p < |str| && range[ptr] == str[p] && before + range[..ptr] == str[..p]
    ensures before + range[..ptr + 1] == str[..p + 1]
  {
    assert range[..ptr + 1] == range[..ptr] + [range[ptr]] && str[..p + 1] == str[..p] + [str[p]];
    Associative(before, range[..ptr], [range[ptr]]);
  }

  lemma PrefixFound(before: string, range: string, str: string, ptr: nat, whole: string)
    requires ptr <= |range| && before + range[..ptr] == str && before + range <= whole
    ensures str <= whole
  {
    assert range == range[..ptr] + range[ptr..];
    Associative(before, range[..ptr], range[ptr..]);
  }

  lemma PrefixMissed(before: string, range: string, str: string, ptr: nat, p: nat, whole: string)
    requires ptr < |range| && p < |str| && range[ptr] != str[p]
    requires before + range[..ptr] == str[..p] && before + range <= whole
    ensures !(str <= whole)
  {
    assert |before + range[..ptr]| == p && (before + range)[p] == range[ptr] && whole[p] == range[ptr];
  }

  lemma ConcatNone(ss: seq<string>)
    ensures Concat(ss[..0]) == ""
  {
  }

  lemma ConcatNext(ss: seq<string>, i: nat)
    requires i < |ss|
    ensures Concat(ss[..i + 1]) == Concat(ss[..i]) + ss[i]
  {
    assert ss[..i + 1][..i] == ss[..i];
  }

  lemma {:induction false} ConcatPrefix(ss: seq<string>, i: nat)
    requires i <= |ss|
    ensures Concat(ss[..i]) <= Concat(ss)
    decreases |ss| - i
  {
    if i < |ss| {
      ConcatPrefix(ss, i + 1);
      ConcatNext(ss, i);
    } else {
      assert ss[..i] == ss;
    }
  }
}
