/** Joining the arguments of a new program: read_argv of logger/bpf/execve.bpf.c. */
module Argv {
  import opened Sequences

  const ARG_SIZE := 256
  const MAX_ARGS := 128
  const ARGS_SIZE := 8192

  /** An element of the argument vector, up to its null pointer: a string, a
      pointer that cannot be read, or a string that cannot be. */
  datatype Arg = Arg(text: string) | BadPointer | BadString

  datatype Outcome = Offset(offset: nat) | ReadUser | ReadUserStr | TooLong

  /** What fits of an argument, without its terminator. */
  function Kept(text: string): (r: string)
    ensures r <= text && |r| == if |text| < 255 then |text| else 255
  {
    if |text| < ARG_SIZE then text else text[..ARG_SIZE - 1]
  }

  ghost predicate Readable(args: seq<Arg>) {
    forall i :: 0 <= i < |args| ==> args[i].Arg?
  }

  /** The arguments with spaces between them. */
  function Joined(args: seq<Arg>): string
    requires forall i :: 0 <= i < |args| ==> args[i].Arg?
  {
    if args == [] then ""
    else
      var front, last := args[..|args| - 1], Kept(args[|args| - 1].text);
      if front == [] then last else Joined(front) + [' '] + last
  }

  /** One argument more means a space and its first 255 bytes, or all if it has fewer. */
  lemma JoinedMore(args: seq<Arg>, text: string)
    requires Readable(args)
    ensures Readable(args + [Arg(text)])
    ensures var kept := text[..if |text| < 255 then |text| else 255];
            Joined(args + [Arg(text)]) == if args == [] then kept else Joined(args) + " " + kept
  {
    var more := args + [Arg(text)];
    assert more[..|args|] == args && [' '] == " ";
  }

  function StoredLengths(args: seq<Arg>): nat
    requires forall i :: 0 <= i < |args| ==> args[i].Arg?
  {
    if args == [] then 0 else StoredLengths(args[..|args| - 1]) + |Kept(args[|args| - 1].text)| + 1
  }

  lemma {:induction false} JoinedLength(args: seq<Arg>)
    requires Readable(args) && args != []
    ensures |Joined(args)| + 1 == StoredLengths(args)
  {
    if |args| > 1 {
      JoinedLength(args[..|args| - 1]);
    }
  }

  /** The first cells are a string and its terminator. */
  ghost predicate Holds(data: seq<char>, text: string) {
    |text| < |data| && data[..|text|] == text && data[|text|] == NUL
  }

  /** Copies what fits of a string to dst[at..at + ARG_SIZE], or clears that, and
      returns the length with the terminator. */
  method ProbeReadUserStr(dst: array<char>, at: nat, arg: Arg) returns (ret: int)
    requires at + ARG_SIZE <= dst.Length && !arg.BadPointer?
    modifies dst
    ensures ret == if arg.BadString? then -1 else (if |arg.text| < 255 then |arg.text| else 255) + 1
    ensures arg.Arg? ==> dst[at..at + ret - 1] == arg.text[..ret - 1] && dst[at + ret - 1] == NUL
    ensures arg.BadString? ==> forall j :: at <= j < at + 256 ==> dst[j] == NUL
    ensures forall j :: 0 <= j < at || at + (if arg.Arg? then ret else ARG_SIZE) <= j < dst.Length ==>
              dst[j] == old(dst[j])
  {
    var i := 0;
    if arg.BadString? {
      while i < ARG_SIZE
        invariant 0 <= i <= ARG_SIZE
        invariant forall j :: at <= j < at + i ==> dst[j] == NUL
        invariant forall j :: 0 <= j < at || at + ARG_SIZE <= j < dst.Length ==> dst[j] == old(dst[j])
      {
        dst[at + i] := NUL;
        i := i + 1;
      }
      return -1;
    }
    while i < |arg.text| && i < ARG_SIZE - 1
      invariant 0 <= i <= |Kept(arg.text)|
      invariant forall j :: 0 <= j < i ==> dst[at + j] == arg.text[j]
      invariant forall j :: 0 <= j < at || at + i <= j < dst.Length ==> dst[j] == old(dst[j])
    {
      dst[at + i] := arg.text[i];
      i := i + 1;
    }
    dst[at + i] := NUL;
    return i + 1;
  }

  /** One more argument after a space in place of the last terminator. */
  lemma JoinedGrows(before: seq<char>, after: seq<char>, args: seq<Arg>, n: nat, offset: nat, len: nat)
    requires n < |args| && Readable(args[..n + 1]) && |before| == |after|
    requires n > 0 ==> Holds(before, Joined(args[..n])) && offset == |Joined(args[..n])| + 1
    requires n == 0 ==> offset == 0
    requires len == |Kept(args[n].text)| + 1 && offset + len <= |after|
    requires after[offset..offset + len - 1] == Kept(args[n].text) && after[offset + len - 1] == NUL
    requires forall j :: 0 <= j < offset - 1 ==> after[j] == before[j]
    requires offset > 0 ==> after[offset - 1] == ' '
    ensures Holds(after, Joined(args[..n + 1])) && offset + len == |Joined(args[..n + 1])| + 1
  {
    assert args[..n + 1][..n] == args[..n];
    if n > 0 {
      var joined, last := Joined(args[..n]), Kept(args[n].text);
      hide Joined, Kept;
      assert after[..offset - 1] == before[..offset - 1] == joined;
      assert after[..offset + len - 1] == after[..offset - 1] + [after[offset - 1]] + after[offset..offset + len - 1];
    }
  }

  /** What read_argv has done after n arguments. */
  ghost predicate Joining(data: seq<char>, was: seq<char>, args: seq<Arg>, n: int, offset: int) {
    && 0 <= n <= |args| && Readable(args[..n]) && |data| == |was| == ARGS_SIZE
    && if n == 0 then offset == 0 && data == was
       else Holds(data, Joined(args[..n])) && offset == |Joined(args[..n])| + 1
  }

  lemma Lengths(data: seq<char>, was: seq<char>, args: seq<Arg>, n: nat, offset: int)
    requires Joining(data, was, args, n, offset)
    ensures offset == StoredLengths(args[..n])
    ensures n > 0 ==> Holds(data, Joined(args[..n]))
    ensures Holds(data, Joined(args[..n])) <==> n > 0 || was[0] == NUL
  {
    if n > 0 { JoinedLength(args[..n]); }
  }

  lemma JoinedStays(before: seq<char>, after: seq<char>, was: seq<char>, args: seq<Arg>, n: nat, offset: int)
    requires Joining(before, was, args, n, offset) && |after| == |before|
    requires forall j :: 0 <= j < offset ==> after[j] == before[j]
    ensures n > 0 ==> Holds(after, Joined(args[..n]))
  {
    var m := |Joined(args[..n])|;
    if n > 0 { assert after[..m] == before[..m]; }
  }

  /** Stores one argument and puts a space in place of the terminator before it. */
  method AppendArg(dst: array<char>, args: seq<Arg>, n: nat, offset: nat, ghost was: seq<char>) returns (ret: int)
    requires dst.Length == ARGS_SIZE && offset <= ARGS_SIZE - ARG_SIZE
    requires n < |args| && !args[n].BadPointer? && Joining(dst[..], was, args, n, offset)
    modifies dst
    ensures ret < 0 ==> args[n].BadString? && (n > 0 ==> Holds(dst[..], Joined(args[..n])))
    ensures ret >= 0 ==> offset + ret <= ARGS_SIZE && Joining(dst[..], was, args, n + 1, offset + ret)
  {
    ghost var before := dst[..];
    ret := ProbeReadUserStr(dst, offset, args[n]);
    if ret < 0 {
      JoinedStays(before, dst[..], was, args, n, offset);
      return;
    }
    if Unsigned(offset - 1) < ARGS_SIZE {
      dst[offset - 1] := ' ';
    }
    assert Readable(args[..n + 1]);
    hide Joined, Kept;
    JoinedGrows(before, dst[..], args, n, offset, ret);
  }

  /** Joins the arguments in dst, up to the first that cannot be read or that
      might not fit; n of them have been joined.  With no arguments it writes
      nothing, so dst holds the empty string only if it did before. */
  method ReadArgv(dst: array<char>, args: seq<Arg>) returns (r: Outcome, ghost n: nat)
    requires dst.Length == 8192
    modifies dst
    ensures n <= |args| && n <= MAX_ARGS && Readable(args[..n])
    ensures n > 0 ==> Holds(dst[..], Joined(args[..n]))
    ensures r.Offset? && n < |args| ==> n == 128
    ensures r.TooLong? ==> 8192 - 256 < |Joined(args[..n])| + 1
    ensures match r
            case Offset(o) =>
              && (n == |args| || n == MAX_ARGS) && o == StoredLengths(args[..n])
              && (Holds(dst[..], Joined(args[..n])) <==> args != [] || old(dst[0]) == NUL)
            case ReadUser => n < |args| && n < MAX_ARGS && args[n].BadPointer?
            case ReadUserStr =>
              n < |args| && n < MAX_ARGS && args[n].BadString? && StoredLengths(args[..n]) <= ARGS_SIZE - ARG_SIZE
            case TooLong =>
              n < |args| && n < MAX_ARGS && !args[n].BadPointer? && StoredLengths(args[..n]) > ARGS_SIZE - ARG_SIZE
  {
    var offset, i := 0, 0;
    ghost var was := dst[..];
    assert args[..0] == [];
    while i < MAX_ARGS && i < |args|
      invariant 0 <= i <= MAX_ARGS && i <= |args| && 0 <= offset <= ARGS_SIZE
      invariant Joining(dst[..], was, args, i, offset)
    {
      hide Joined, StoredLengths, Holds;
      Lengths(dst[..], was, args, i, offset);
      if args[i].BadPointer? {
        return ReadUser, i;
      }
      if offset > ARGS_SIZE - ARG_SIZE {
        return TooLong, i;
      }
      var ret := AppendArg(dst, args, i, offset, was);
      if ret < 0 {
        return ReadUserStr, i;
      }
      offset := offset + ret;
      i := i + 1;
    }
    Lengths(dst[..], was, args, i, offset);
    return Offset(offset), i;
  }
}
