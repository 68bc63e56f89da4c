/** The walk up the dentry and mount chain of logger/bpf/helpers.h. */
module KernelPath {
  import opened Sequences
  import opened PathText

  const MAX_DENTRIES := 12
  const DENTRY_NAME_SIZE := 256

  datatype Dentry = Dentry(parent: int, name: string)

  datatype Mount = Mount(root: int, point: int, parent: int)

  /** The kernel structures the walk reads; they refer to each other by number. */
  datatype Kernel = Kernel(dentries: seq<Dentry>, mounts: seq<Mount>)

  /** References lead somewhere, and the mount at the top of the tree is mounted on its own root. */
  ghost predicate WellFormed(k: Kernel) {
    && (forall d :: 0 <= d < |k.dentries| ==> 0 <= k.dentries[d].parent < |k.dentries|)
    && (forall m :: 0 <= m < |k.mounts| ==>
          && 0 <= k.mounts[m].point < |k.dentries| && 0 <= k.mounts[m].parent < |k.mounts|
          && (k.mounts[m].parent == m ==> k.mounts[m].point == k.mounts[m].root))
  }

  ghost predicate Located(k: Kernel, d: int, m: int) {
    WellFormed(k) && 0 <= d < |k.dentries| && 0 <= m < |k.mounts|
  }

  /** The names on the way from the global root down to dentry d of mount m, the
      last of them first; each name and each mount boundary costs a step. */
  ghost function WalkUp(k: Kernel, d: int, m: int, steps: nat): seq<string>
    requires Located(k, d, m)
    decreases steps
  {
    var dentry, mount := k.dentries[d], k.mounts[m];
    if steps == 0 then []
    else if d == mount.root then
      if mount.parent == m then [] else WalkUp(k, mount.point, mount.parent, steps - 1)
    else if dentry.parent == d then []
    else WalkUp(k, dentry.parent, m, steps - 1) + [dentry.name]
  }

  /** Dentry d of mount m is no root and has a parent, so its name belongs to the path. */
  ghost predicate Named(k: Kernel, d: int, m: int)
    requires Located(k, d, m)
  {
    d != k.mounts[m].root && d != k.dentries[d].parent
  }

  /** Where a number of steps upwards lead, each to a parent or across a mount boundary. */
  ghost function Place(k: Kernel, d: int, m: int, steps: nat): (r: (int, int))
    requires Located(k, d, m)
    ensures Located(k, r.0, r.1)
    decreases steps
  {
    var dentry, mount := k.dentries[d], k.mounts[m];
    if steps == 0 then (d, m)
    else if d == mount.root then Place(k, mount.point, mount.parent, steps - 1)
    else Place(k, dentry.parent, m, steps - 1)
  }

  ghost predicate NamedAt(k: Kernel, d: int, m: int, steps: nat)
    requires Located(k, d, m)
  {
    var (d', m') := Place(k, d, m, steps);
    Named(k, d', m')
  }

  lemma {:induction false} TopStays(k: Kernel, d: int, m: int, steps: nat)
    requires Located(k, d, m)
    requires if d == k.mounts[m].root then k.mounts[m].parent == m else k.dentries[d].parent == d
    ensures Place(k, d, m, steps) == (d, m)
  {
    if steps > 0 { TopStays(k, d, m, steps - 1); }
  }

  /** One more step puts the name found there in front, if there is one. */
  lemma {:induction false} OneStepFurther(k: Kernel, d: int, m: int, n: nat)
    requires Located(k, d, m)
    ensures var (d', m') := Place(k, d, m, n);
            WalkUp(k, d, m, n + 1) == (if NamedAt(k, d, m, n) then [k.dentries[d'].name] else []) + WalkUp(k, d, m, n)
    decreases n
  {
    var dentry, mount := k.dentries[d], k.mounts[m];
    var (d', m') := Place(k, d, m, n);
    if (if d == mount.root then mount.parent == m else dentry.parent == d) {
      TopStays(k, d, m, n);
      assert [] + WalkUp(k, d, m, n) == WalkUp(k, d, m, n);
    } else if n == 0 {
      assert [] + [dentry.name] == [dentry.name] + [];
    } else if d == mount.root {
      OneStepFurther(k, mount.point, mount.parent, n - 1);
    } else {
      OneStepFurther(k, dentry.parent, m, n - 1);
      hide WalkUp, Place;
      var first := if NamedAt(k, d, m, n) then [k.dentries[d'].name] else [];
      Associative(first, WalkUp(k, dentry.parent, m, n - 1), [dentry.name]);
    }
  }

  lemma {:induction false} LongerWalk(k: Kernel, d: int, m: int, i: nat, n: nat)
    requires Located(k, d, m) && i <= n
    ensures |WalkUp(k, d, m, i)| <= |WalkUp(k, d, m, n)|
    ensures WalkUp(k, d, m, i) == WalkUp(k, d, m, n) <==> forall j :: i <= j < n ==> !NamedAt(k, d, m, j)
    decreases n - i
  {
    if i < n {
      LongerWalk(k, d, m, i, n - 1);
      OneStepFurther(k, d, m, n - 1);
      hide WalkUp, NamedAt, Place;
      assert [] + WalkUp(k, d, m, n - 1) == WalkUp(k, d, m, n - 1);
      if NamedAt(k, d, m, n - 1) {
        assert |WalkUp(k, d, m, n)| == 1 + |WalkUp(k, d, m, n - 1)|;
      } else {
        assert WalkUp(k, d, m, n) == WalkUp(k, d, m, n - 1);
      }
    }
  }

  /** So many steps collect the whole chain of names: more add nothing. */
  ghost predicate CollectsAll(k: Kernel, d: int, m: int, steps: nat)
    requires Located(k, d, m)
  {
    forall n: nat :: n >= steps ==> WalkUp(k, d, m, n) == WalkUp(k, d, m, steps)
  }

  /** They do if and only if no dentry reached later has a name. */
  lemma WholeChain(k: Kernel, d: int, m: int, steps: nat)
    requires Located(k, d, m)
    ensures CollectsAll(k, d, m, steps) <==> forall j: nat :: j >= steps ==> !NamedAt(k, d, m, j)
  {
    hide WalkUp, NamedAt, Located;
    if CollectsAll(k, d, m, steps) {
      forall j: nat | j >= steps ensures !NamedAt(k, d, m, j) {
        LongerWalk(k, d, m, steps, j + 1);
      }
    }
    if forall j: nat :: j >= steps ==> !NamedAt(k, d, m, j) {
      forall n: nat | n >= steps ensures WalkUp(k, d, m, n) == WalkUp(k, d, m, steps) {
        LongerWalk(k, d, m, steps, n);
      }
    }
  }

  /** A chain of n dentries named alike below the root of the only mount. */
  ghost function Ladder(n: nat): Kernel {
    Kernel(seq(n + 1, i => Dentry(if i == 0 then 0 else i - 1, "d")), [Mount(0, 0, 0)])
  }

  lemma {:induction false} LadderNames(n: nat, d: nat, steps: nat)
    requires d <= n
    ensures Located(Ladder(n), d, 0) && |WalkUp(Ladder(n), d, 0, steps)| == if steps < d then steps else d
    decreases steps
  {
    if steps > 0 && d > 0 {
      LadderNames(n, d - 1, steps - 1);
    }
  }

  /** Thirteen directories deep, the program's twelve steps lose the topmost name. */
  lemma TopNameLost(steps: nat, deep: nat)
    requires steps == MAX_DENTRIES && deep == steps + 1
    ensures Located(Ladder(deep), deep, 0)
    ensures |Ancestry(Ladder(deep), deep, 0)| == 12 && |WalkUp(Ladder(deep), deep, 0, deep)| == 13
  {
    hide WalkUp;
    LadderNames(deep, deep, steps);
    LadderNames(deep, deep, deep);
  }

  /** A file in the root of a mount on a directory of another: the boundary adds
      no name, and what lies on the other side comes in front. */
  ghost function TwoMounts(dir: string, file: string): Kernel {
    Kernel([Dentry(0, ""), Dentry(0, dir), Dentry(2, ""), Dentry(2, file)], [Mount(0, 0, 0), Mount(2, 1, 0)])
  }

  lemma AcrossMount(dir: string, file: string, n: nat)
    ensures Located(TwoMounts(dir, file), 3, 1)
    ensures n >= 3 ==> WalkUp(TwoMounts(dir, file), 3, 1, n) == [dir, file]
  {
    var k := TwoMounts(dir, file);
    if n >= 3 {
      TopHasNoNames(k, 0, n - 3);
      assert [] + [dir] == [dir] && [dir] + [file] == [dir, file];
      assert WalkUp(k, 0, 0, n - 3) == [];
      assert WalkUp(k, 1, 0, n - 2) == [dir];
      assert WalkUp(k, 2, 1, n - 1) == [dir];
    }
  }

  /** As far up as the program looks. */
  ghost function Ancestry(k: Kernel, d: int, m: int): seq<string>
    requires Located(k, d, m)
  {
    WalkUp(k, d, m, MAX_DENTRIES)
  }

  /** The top of the tree has no names above it. */
  lemma TopHasNoNames(k: Kernel, m: int, steps: nat)
    requires WellFormed(k) && 0 <= m < |k.mounts| && k.mounts[m].parent == m
    ensures WalkUp(k, k.mounts[m].root, m, steps) == []
  {
  }

  /** The bytes a name takes with its terminator, cut to the 256-byte window. */
  function Window(name: string): (len: nat)
    ensures len < DENTRY_NAME_SIZE && len <= |name| + 1
  {
    (|name| + 1) % DENTRY_NAME_SIZE
  }

  /** What the window leaves of a name. */
  function StoredName(name: string): seq<string> {
    var len := Window(name);
    if len == 0 then [] else [name[..len - 1]]
  }

  function StoredNames(names: seq<string>): seq<string> {
    if names == [] then [] else StoredNames(names[..|names| - 1]) + StoredName(names[|names| - 1])
  }

  lemma {:induction false} StoredNamesConcat(p: seq<string>, q: seq<string>)
    ensures StoredNames(p + q) == StoredNames(p) + StoredNames(q)
  {
    hide StoredName;
    if q == [] {
      assert p + q == p;
    } else {
      StoredNamesConcat(p, q[..|q| - 1]);
      assert (p + q)[..|p + q| - 1] == p + q[..|q| - 1];
      Associative(StoredNames(p), StoredNames(q[..|q| - 1]), StoredName(q[|q| - 1]));
    }
  }

  lemma SingleName(name: string)
    ensures StoredNames([name]) == StoredName(name)
  {
    assert [name][..0] == [] && StoredNames([]) + StoredName(name) == StoredName(name);
  }

  lemma {:induction false} StoredNamesCount(names: seq<string>)
    ensures |StoredNames(names)| <= |names|
  {
    if names != [] {
      StoredNamesCount(names[..|names| - 1]);
    }
  }

  /** One name keeps all its bytes exactly when it has at most 254. */
  lemma StoredWhole(name: string)
    ensures |StoredName(name)| <= 1 && (StoredName(name) == [name] <==> |name| <= 254)
  {
    if |name| <= 254 { assert name[..|name|] == name; }
  }

  lemma SameEnd<T>(p: seq<T>, q: seq<T>, e: seq<T>, x: T)
    requires |p| <= |q| && |e| <= 1
    ensures p + e == q + [x] <==> p == q && e == [x]
  {
    if p + e == q + [x] {
      assert |p + e| == |q + [x]| && e != [];
      assert (p + e)[..|p|] == p && (q + [x])[..|q|] == q && (p + e)[|p|] == (q + [x])[|q|];
      assert e == [e[0]];
    }
  }

  /** Names are stored as they are exactly when each has at most 254 bytes. */
  lemma {:induction false} StoredAsTheyAre(names: seq<string>)
    ensures StoredNames(names) == names <==> forall i :: 0 <= i < |names| ==> |names[i]| <= 254
  {
    hide *;
    if names == [] {
      StoredNamesEnd([], "");
    } else {
      var front, last := names[..|names| - 1], names[|names| - 1];
      assert names == front + [last];
      StoredNamesEnd(front, last);
      StoredAsTheyAre(front);
      StoredNamesCount(front);
      StoredWhole(last);
      SameEnd(StoredNames(front), front, StoredName(last), last);
      assert forall i :: 0 <= i < |front| ==> front[i] == names[i];
    }
  }

  lemma StoredNamesEnd(front: seq<string>, last: string)
    ensures StoredNames(front + [last]) == StoredNames(front) + StoredName(last)
    ensures front == [] ==> StoredNames(front) == []
  {
    assert (front + [last])[..|front|] == front;
  }

  /** What is left of one name: nothing of 255 bytes, and of up to 510 those by
      which it exceeds 256. */
  lemma LongNames(name: string)
    ensures |name| == 255 ==> StoredNames([name]) == []
    ensures 256 <= |name| <= 510 ==> StoredNames([name]) == [name[..|name| - 256]]
  {
    SingleName(name);
  }

  /** The path buffer of a record: text at the end, and where it starts. */
  class PathDentries {
    const data: array<char>
    var offset: nat

    constructor ()
      ensures fresh(data) && data.Length == PATH_SIZE == 4096
    {
      data := new char[PATH_SIZE];
      offset := 0;
    }

    /** The C string at the offset is text. */
    ghost predicate Holds(text: string)
      reads this, data
    {
      && data.Length == PATH_SIZE
      && offset + |text| + 1 == PATH_SIZE
      && data[offset..PATH_SIZE - 1] == text
      && data[PATH_SIZE - 1] == NUL
    }
  }

  /** The bytes from the last stored name back, before the finishing touches: a
      file's last name is followed by its terminator, a directory's by a slash. */
  function Written(names: seq<string>, isDir: bool): string {
    if isDir || names == [] then Slashed(names) else Slashed(names)[..|Slashed(names)| - 1] + [NUL]
  }

  function PathString(names: seq<string>, isDir: bool): string {
    if isDir then Text(names) else Text(names)[..|Text(names)| - 1]
  }

  /** A directory's path has a slash at its end, a file's has not. */
  lemma DirectoryAndFile(names: seq<string>)
    ensures PathString(names, true) == Text(names) && PathString(names, false) + "/" == Text(names)
  {
    hide Text;
    TextEnds(names);
    var text := Text(names);
    assert text == text[..|text| - 1] + [text[|text| - 1]];
  }

  lemma WrittenPrepend(n: string, names: seq<string>, isDir: bool)
    ensures Written([n] + names, isDir) == n + [if isDir || names != [] then '/' else NUL] + Written(names, isDir)
  {
    SlashedPrepend(n, names);
    if names == [] {
      assert n + "/" + Slashed(names) == n + "/";
    }
  }

  lemma {:induction false} SlashedLength(names: seq<string>)
    requires forall i :: 0 <= i < |names| ==> |names[i]| < DENTRY_NAME_SIZE
    ensures |names| <= |Slashed(names)| <= DENTRY_NAME_SIZE * |names|
  {
    if names != [] {
      SlashedLength(names[..|names| - 1]);
    }
  }

  datatype Outcome = Offset(offset: nat) | CoreRead | NameTooLong

  /** Copies the first len - 1 bytes of name and a terminator to data[at..]. */
  method CoreReadStr(data: array<char>, at: nat, len: nat, name: string)
    requires at + len <= data.Length && len <= |name| + 1
    modifies data
    ensures forall j :: at <= j < at + len - 1 ==> data[j] == name[j - at]
    ensures len > 0 ==> data[at + len - 1] == NUL
    ensures forall j :: 0 <= j < at || at + len <= j < data.Length ==> data[j] == old(data[j])
  {
    var i := 0;
    while i + 1 < len
      invariant 0 <= i <= len && (len > 0 ==> i < len)
      invariant forall j :: at <= j < at + i ==> data[j] == name[j - at]
      invariant forall j :: 0 <= j < at || at + len <= j < data.Length ==> data[j] == old(data[j])
    {
      data[at + i] := name[i];
      i := i + 1;
    }
    if len > 0 {
      data[at + len - 1] := NUL;
    }
  }

  /** The buffer from offset up to end holds what has been written of the names. */
  ghost predicate Filling(data: seq<char>, offset: int, isDir: bool, names: seq<string>) {
    var end := if isDir then PATH_SIZE - 1 else PATH_SIZE;
    |data| == PATH_SIZE && 0 <= offset <= end && data[offset..end] == Written(names, isDir)
  }

  /** Only in front of the very last byte is there no separator yet. */
  lemma AtTheEnd(data: seq<char>, offset: int, isDir: bool, names: seq<string>)
    requires Filling(data, offset, isDir, names)
    ensures offset == PATH_SIZE <==> !isDir && names == []
  {
    assert names != [] ==> |Slashed(names)| > 0;
  }

  /** What one more name adds to the stored ones: nothing, or what its window leaves of it. */
  lemma StoredPrepend(name: string, raw: seq<string>)
    requires Window(name) > 0
    ensures StoredNames([name] + raw) == [name[..Window(name) - 1]] + StoredNames(raw)
  {
    StoredNamesConcat([name], raw);
    SingleName(name);
  }

  lemma NothingStored(name: string, raw: seq<string>)
    requires Window(name) == 0
    ensures StoredNames([name] + raw) == StoredNames(raw)
  {
    StoredNamesConcat([name], raw);
    SingleName(name);
  }

  /** A run of characters, read off cell by cell. */
  lemma Run(after: seq<char>, o: int, end: int, piece: seq<char>)
    requires 0 <= o && o + |piece| == end <= |after|
    requires forall j :: o <= j < end ==> after[j] == piece[j - o]
    ensures after[o..end] == piece
  {
  }

  /** What is there stays there if its cells do. */
  lemma FillingStays(before: seq<char>, after: seq<char>, offset: int, isDir: bool, names: seq<string>)
    requires Filling(before, offset, isDir, names) && |after| == PATH_SIZE
    requires forall j :: offset <= j < PATH_SIZE ==> after[j] == before[j]
    ensures Filling(after, offset, isDir, names)
  {
    var end := if isDir then PATH_SIZE - 1 else PATH_SIZE;
    assert after[offset..end] == before[offset..end];
  }

  /** A name and its separator right in front of what is there extend it. */
  lemma FillingGrows(after: seq<char>, o: int, offset: int, n: string, isDir: bool, names: seq<string>)
    requires Filling(after, offset, isDir, names) && 0 <= o && offset == o + |n| + 1
    requires forall j :: o <= j < o + |n| ==> after[j] == n[j - o]
    requires after[offset - 1] == if offset < PATH_SIZE then '/' else NUL
    ensures Filling(after, o, isDir, [n] + names)
  {
    hide Written, Slashed;
    var end, c := if isDir then PATH_SIZE - 1 else PATH_SIZE, after[offset - 1];
    AtTheEnd(after, offset, isDir, names);
    WrittenPrepend(n, names, isDir);
    var piece := n + [c];
    Run(after, o, offset, piece);
    Slices(after, o, offset, end);
  }

  /** Both cases: a name that leaves nothing behind, and any other. */
  lemma FillingTakes(before: seq<char>, after: seq<char>, offset: int, len: int, name: string, isDir: bool,
                     raw: seq<string>)
    requires Filling(before, offset, isDir, StoredNames(raw)) && |after| == PATH_SIZE && len == Window(name)
    requires 0 <= offset - len && offset <= PATH_SIZE
    requires forall j :: offset <= j < PATH_SIZE ==> after[j] == before[j]
    requires forall j :: offset - len <= j < offset - 1 ==> after[j] == name[j - (offset - len)]
    requires len > 0 ==> after[offset - 1] == if offset < PATH_SIZE then '/' else NUL
    ensures Filling(after, offset - len, isDir, StoredNames([name] + raw))
  {
    hide *;
    FillingStays(before, after, offset, isDir, StoredNames(raw));
    if len > 0 {
      StoredPrepend(name, raw);
      FillingGrows(after, offset - len, offset, name[..len - 1], isDir, StoredNames(raw));
    } else {
      NothingStored(name, raw);
    }
  }

  lemma WindowFits(name: string, offset: nat)
    requires DENTRY_NAME_SIZE <= offset
    ensures Window(name) <= 255 && Window(name) + 1 <= offset && 2 <= offset
  {
  }

  /** One name, its separator included, goes in front of what is there. */
  method StoreName(data: array<char>, offset: nat, name: string, isDir: bool, ghost raw: seq<string>) returns (o: nat)
    requires data.Length == PATH_SIZE && offset <= PATH_SIZE
    requires Filling(data[..], offset, isDir, StoredNames(raw)) && DENTRY_NAME_SIZE <= offset
    modifies data
    ensures Filling(data[..], o, isDir, StoredNames([name] + raw))
    ensures offset - 255 <= o <= offset && data[0] == old(data[0])
  {
    hide *;
    var len := Window(name);
    WindowFits(name, offset);
    ghost var before := data[..];
    CoreReadStr(data, offset - len, len, name);
    if offset - 1 < PATH_SIZE - 1 {
      data[offset - 1] := '/';
    }
    o := offset - len;
    FillingTakes(before, data[..], offset, len, name, isDir, raw);
  }

  /** The finishing touches turn what was written into the path string. */
  lemma Finished(data: seq<char>, offset: int, isDir: bool, names: seq<string>)
    requires Filling(data, offset, isDir, names) && offset > 0
    ensures var d := data[offset - 1 := '/'][PATH_SIZE - 1 := NUL];
            offset - 1 + |PathString(names, isDir)| + 1 == PATH_SIZE
            && d[offset - 1..PATH_SIZE - 1] == PathString(names, isDir)
  {
    AtTheEnd(data, offset, isDir, names);
    WrittenPath(names, isDir);
    var last := PATH_SIZE - 1;
    var d := data[offset - 1 := '/'][last := NUL];
    if offset < PATH_SIZE {
      hide Written, PathString;
      forall i | offset <= i < last ensures d[i] == data[i] { }
      assert d[offset..last] == data[offset..last];
      assert d[offset - 1..last] == ['/'] + d[offset..last];
      if !isDir {
        assert data[offset..PATH_SIZE][..last - offset] == data[offset..last];
      }
    }
  }

  /** The path string is a slash and what was written, but for its terminator. */
  lemma WrittenPath(names: seq<string>, isDir: bool)
    ensures var w := Written(names, isDir);
            PathString(names, isDir) == if isDir then "/" + w else if names == [] then "" else "/" + w[..|w| - 1]
    ensures !isDir && names != [] ==> Written(names, isDir) != ""
  {
    if !isDir && names != [] {
      var s := Slashed(names);
      assert s != "";
      assert ("/" + s)[..|s|] == "/" + s[..|s| - 1];
      assert (s[..|s| - 1] + [NUL])[..|s| - 1] == s[..|s| - 1];
    }
  }

  lemma NothingWritten(data: seq<char>, isDir: bool)
    requires |data| == PATH_SIZE
    ensures StoredNames([]) == [] && Filling(data, if isDir then PATH_SIZE - 1 else PATH_SIZE, isDir, [])
  {
  }

  /** The slash in front, the terminator at the end and the offset. */
  method Finish(out: PathDentries, written: nat, isDir: bool, ghost names: seq<string>) returns (offset: nat)
    requires out.data.Length == PATH_SIZE && Filling(out.data[..], written, isDir, names) && written > 0
    modifies out, out.data
    ensures offset == out.offset && out.Holds(PathString(names, isDir))
  {
    Finished(out.data[..], written, isDir, names);
    offset := written - 1;
    out.data[offset % PATH_SIZE] := '/';
    out.data[PATH_SIZE - 1] := NUL;
    out.offset := offset;
  }

  /** The walk has collected raw, and the rest of all lies above dentry d of mount m. */
  ghost predicate OnTheWay(k: Kernel, all: seq<string>, d: int, m: int, steps: nat, raw: seq<string>) {
    Located(k, d, m) && all == WalkUp(k, d, m, steps) + raw
  }

  lemma WalkStarts(k: Kernel, d: int, m: int, steps: nat)
    requires Located(k, d, m)
    ensures OnTheWay(k, WalkUp(k, d, m, steps), d, m, steps, [])
  {
    assert WalkUp(k, d, m, steps) + [] == WalkUp(k, d, m, steps);
  }

  lemma AncestryStarts(k: Kernel, d: int, m: int)
    requires Located(k, d, m)
    ensures OnTheWay(k, Ancestry(k, d, m), d, m, MAX_DENTRIES, [])
  {
    hide WalkUp, OnTheWay;
    WalkStarts(k, d, m, MAX_DENTRIES);
  }

  /** A step up to the parent of a dentry that is no root. */
  lemma NameStep(k: Kernel, all: seq<string>, d: int, m: int, steps: nat, raw: seq<string>)
    requires OnTheWay(k, all, d, m, steps, raw) && steps > 0
    requires Located(k, d, m) && d != k.mounts[m].root && d != k.dentries[d].parent
    ensures OnTheWay(k, all, k.dentries[d].parent, m, steps - 1, [k.dentries[d].name] + raw)
  {
    Associative(WalkUp(k, k.dentries[d].parent, m, steps - 1), [k.dentries[d].name], raw);
  }

  /** A step across a mount boundary; at the top of the tree it leads nowhere new. */
  lemma MountStep(k: Kernel, all: seq<string>, m: int, steps: nat, raw: seq<string>)
    requires WellFormed(k) && 0 <= m < |k.mounts| && steps > 0
    requires OnTheWay(k, all, k.mounts[m].root, m, steps, raw)
    ensures OnTheWay(k, all, k.mounts[m].point, k.mounts[m].parent, steps - 1, raw)
  {
    if k.mounts[m].parent == m { TopHasNoNames(k, m, steps - 1); }
  }

  /** Where the walk stops, everything has been collected. */
  lemma WalkEnds(k: Kernel, all: seq<string>, d: int, m: int, steps: nat, raw: seq<string>)
    requires OnTheWay(k, all, d, m, steps, raw) && Located(k, d, m)
    requires steps == 0 || if d == k.mounts[m].root then k.mounts[m].parent == m else k.dentries[d].parent == d
    ensures all == raw
  {
    assert [] + raw == raw;
  }

  /** Where the walk is, and what it has left in the buffer. */
  ghost predicate Climbing(k: Kernel, all: seq<string>, data: seq<char>, offset: int, isDir: bool,
                           d: int, m: int, above: Option<int>, steps: nat, raw: seq<string>)
  {
    && Located(k, d, m) && (above == None || above == Some(k.mounts[m].parent))
    && Filling(data, offset, isDir, StoredNames(raw))
    && OnTheWay(k, all, d, m, steps, raw)
  }

  /** Nothing lies above the dentry. */
  ghost predicate Top(k: Kernel, d: int, m: int, above: Option<int>) {
    Located(k, d, m) && if d == k.mounts[m].root then above == Some(m) else d == k.dentries[d].parent
  }

  lemma AtTop(k: Kernel, d: int, m: int, above: Option<int>)
    requires Located(k, d, m) && 0 <= d < |k.dentries| && 0 <= m < |k.mounts|
    requires if d == k.mounts[m].root then above == Some(m) else d == k.dentries[d].parent
    ensures Top(k, d, m, above)
  {
  }

  /** In how many of n rounds the walk looks at the kernel: the one in which it
      finds nothing above is its last. */
  ghost function Rounds(k: Kernel, d: int, m: int, above: Option<int>, n: nat): nat
    requires Located(k, d, m)
    decreases n
  {
    if n == 0 then 0
    else if Top(k, d, m, above) then 1
    else if d == k.mounts[m].root then
      var over := k.mounts[m].parent;
      1 + Rounds(k, k.mounts[m].point, over, Some(k.mounts[over].parent), n - 1)
    else 1 + Rounds(k, k.dentries[d].parent, m, above, n - 1)
  }

  /** One of the rounds of the walk meets a failing read. */
  ghost predicate MeetsFault(k: Kernel, d: int, m: int, faulty: set<int>)
    requires Located(k, d, m)
  {
    FaultBelow(faulty, Rounds(k, d, m, None, MAX_DENTRIES))
  }

  ghost predicate FaultBelow(faulty: set<int>, n: nat) {
    exists i :: 0 <= i < n && i in faulty
  }

  lemma RoundsFault(k: Kernel, d: int, m: int, faulty: set<int>)
    requires Located(k, d, m)
    ensures MeetsFault(k, d, m, faulty) == FaultBelow(faulty, Rounds(k, d, m, None, MAX_DENTRIES))
  {
  }

  /** Twelve names of at most 255 bytes each fit, with room for the window of one more. */
  lemma Sizes()
    ensures 0 <= MAX_DENTRIES && PATH_SIZE - 255 * MAX_DENTRIES > DENTRY_NAME_SIZE
    ensures 0 < PATH_SIZE && 0 < DENTRY_NAME_SIZE
  {
  }

  lemma FaultNext(faulty: set<int>, i: nat, n: nat)
    ensures !FaultBelow(faulty, 0)
    ensures FaultBelow(faulty, i + 1) <==> FaultBelow(faulty, i) || i in faulty
    ensures i < n && i in faulty ==> FaultBelow(faulty, n)
  {
  }

  /** The program looks at each dentry of a chain below the root, twice at the root
      of the only mount, and never more than n times. */
  lemma {:induction false} LadderRounds(deep: nat, d: nat, n: nat)
    requires d <= deep
    ensures Located(Ladder(deep), d, 0)
    ensures Rounds(Ladder(deep), d, 0, None, n) == if n < d + 2 then n else d + 2
    decreases n
  {
    if n > 0 && d > 0 {
      LadderRounds(deep, d - 1, n - 1);
    }
  }

  lemma RoundsEnd(k: Kernel, d: int, m: int, above: Option<int>, n: nat)
    requires Located(k, d, m)
    ensures n == 0 ==> Rounds(k, d, m, above, n) == 0
    ensures n > 0 && Top(k, d, m, above) ==> Rounds(k, d, m, above, n) == 1
  {
  }

  lemma SomeRound(k: Kernel, d: int, m: int, above: Option<int>, n: nat)
    requires Located(k, d, m) && n > 0
    ensures Rounds(k, d, m, above, n) > 0
  {
  }

  lemma RoundsNext(k: Kernel, d: int, m: int, above: Option<int>, n: nat)
    requires Located(k, d, m) && n > 0
    requires !(if d == k.mounts[m].root then above == Some(m) else d == k.dentries[d].parent)
    ensures var over := k.mounts[m].parent;
            && 0 <= over < |k.mounts|
            && (d == k.mounts[m].root ==>
                 && Located(k, k.mounts[m].point, over)
                 && Rounds(k, d, m, above, n) ==
                      1 + Rounds(k, k.mounts[m].point, over, Some(k.mounts[over].parent), n - 1))
    ensures d != k.mounts[m].root ==>
              && Located(k, k.dentries[d].parent, m)
              && Rounds(k, d, m, above, n) == 1 + Rounds(k, k.dentries[d].parent, m, above, n - 1)
  {
  }

  lemma ClimbStarts(k: Kernel, data: seq<char>, isDir: bool, d: int, m: int)
    requires Located(k, d, m) && |data| == PATH_SIZE
    ensures var end := if isDir then PATH_SIZE - 1 else PATH_SIZE;
            Climbing(k, Ancestry(k, d, m), data, end, isDir, d, m, None, MAX_DENTRIES, [])
  {
    NothingWritten(data, isDir);
    AncestryStarts(k, d, m);
  }

  lemma ClimbCrosses(k: Kernel, all: seq<string>, data: seq<char>, offset: int, isDir: bool,
                     d: int, m: int, above: Option<int>, steps: nat, raw: seq<string>)
    requires Climbing(k, all, data, offset, isDir, d, m, above, steps, raw) && steps > 0
    requires Located(k, d, m) && d == k.mounts[m].root
    ensures var mount := k.mounts[m];
            && 0 <= mount.parent < |k.mounts|
            && var next := Some(k.mounts[mount.parent].parent);
               Climbing(k, all, data, offset, isDir, mount.point, mount.parent, next, steps - 1, raw)
  {
    MountStep(k, all, m, steps, raw);
  }

  lemma ClimbEnds(k: Kernel, all: seq<string>, data: seq<char>, offset: int, isDir: bool,
                  d: int, m: int, above: Option<int>, steps: nat, raw: seq<string>)
    requires Climbing(k, all, data, offset, isDir, d, m, above, steps, raw)
    requires steps == 0 || Top(k, d, m, above)
    ensures Filling(data, offset, isDir, StoredNames(all))
  {
    WalkEnds(k, all, d, m, steps, raw);
  }

  /** Stores the name of a dentry that is no root and goes on to its parent. */
  method ClimbStores(k: Kernel, ghost all: seq<string>, data: array<char>, offset: nat, isDir: bool,
                     d: int, ghost m: int, ghost above: Option<int>, ghost steps: nat, ghost raw: seq<string>)
    returns (o: nat)
    requires data.Length == PATH_SIZE && DENTRY_NAME_SIZE <= offset <= PATH_SIZE && steps > 0
    requires Climbing(k, all, data[..], offset, isDir, d, m, above, steps, raw)
    requires Located(k, d, m) && d != k.mounts[m].root && d != k.dentries[d].parent
    modifies data
    ensures offset - 255 <= o <= offset && data[0] == old(data[0])
    ensures Climbing(k, all, data[..], o, isDir, k.dentries[d].parent, m, above, steps - 1, [k.dentries[d].name] + raw)
  {
    hide Filling, StoredNames, OnTheWay;
    NameStep(k, all, d, m, steps, raw);
    o := StoreName(data, offset, k.dentries[d].name, isDir, raw);
  }

  /** References lead to existing dentries and mounts. */
  lemma Bounds(k: Kernel, d: int, m: int)
    requires Located(k, d, m)
    ensures 0 <= d < |k.dentries| && 0 <= m < |k.mounts|
    ensures Located(k, k.dentries[d].parent, m) && Located(k, k.mounts[m].point, k.mounts[m].parent)
    ensures 0 <= k.mounts[m].parent < |k.mounts|
  {
  }

  lemma NeverWraps(offset: int, len: int)
    requires 0 <= len <= offset <= PATH_SIZE
    ensures Unsigned(offset - len) <= PATH_SIZE
  {
  }

  datatype Step = Stop | TooLong | Next(offset: int, dentry: int, mount: int, mountParent: Option<int>)

  /** One round of the walk: the top of the tree, a mount boundary or a name. */
  method ClimbOne(k: Kernel, ghost all: seq<string>, data: array<char>, offset: nat, isDir: bool,
                  dentry: int, mount: int, mountParent: Option<int>, ghost steps: nat, ghost raw: seq<string>)
    returns (s: Step, ghost above: seq<string>)
    requires data.Length == PATH_SIZE && DENTRY_NAME_SIZE <= offset <= PATH_SIZE && steps > 0
    requires Climbing(k, all, data[..], offset, isDir, dentry, mount, mountParent, steps, raw)
    modifies data
    ensures match s
            case Stop =>
              && Top(k, dentry, mount, mountParent) && above == raw && data[..] == old(data[..])
              && Rounds(k, dentry, mount, mountParent, steps) == 1
            case TooLong => false
            case Next(o, d, m, p) =>
              && offset - 255 <= o <= offset && Climbing(k, all, data[..], o, isDir, d, m, p, steps - 1, above)
              && Located(k, d, m)
              && Rounds(k, dentry, mount, mountParent, steps) == 1 + Rounds(k, d, m, p, steps - 1)
              && data[0] == old(data[0])
  {
    assert Located(k, dentry, mount);
    Bounds(k, dentry, mount);
    hide *;
    above := raw;
    var mountRoot, parent := k.mounts[mount].root, k.dentries[dentry].parent;
    if dentry == mountRoot || dentry == parent {
      if dentry != mountRoot || mountParent == Some(mount) {
        AtTop(k, dentry, mount, mountParent);
        RoundsEnd(k, dentry, mount, mountParent, steps);
        return Stop, raw;
      }
      RoundsNext(k, dentry, mount, mountParent, steps);
      ClimbCrosses(k, all, data[..], offset, isDir, dentry, mount, mountParent, steps, raw);
      var over := k.mounts[mount].parent;
      return Next(offset, k.mounts[mount].point, over, Some(k.mounts[over].parent)), raw;
    }
    RoundsNext(k, dentry, mount, mountParent, steps);
    var name := k.dentries[dentry].name;
    NeverWraps(offset, Window(name));
    if Unsigned(offset - Window(name)) > PATH_SIZE {
      return TooLong, raw;
    }
    var o := ClimbStores(k, all, data, offset, isDir, dentry, mount, mountParent, steps, raw);
    return Next(o, parent, mount, mountParent), [name] + raw;
  }

  /** The loop of the walk: stores name after name, up to the top of the tree,
      unless a read fails on the way. */
  method Climb(k: Kernel, dentry0: int, mount0: int, data: array<char>, isDir: bool, faulty: set<int>)
    returns (r: Outcome)
    requires Located(k, dentry0, mount0) && data.Length == PATH_SIZE
    modifies data
    ensures match r
            case Offset(o) => 0 < o && Filling(data[..], o, isDir, StoredNames(Ancestry(k, dentry0, mount0)))
            case CoreRead => data[0] == old(data[0])
            case NameTooLong => false
    ensures r == CoreRead <==> MeetsFault(k, dentry0, mount0, faulty)
  {
    hide *;
    Sizes();
    var dentry, mount, mountParent := dentry0, mount0, None;
    var offset := if isDir then PATH_SIZE - 1 else PATH_SIZE;
    ghost var raw, all := [], Ancestry(k, dentry0, mount0);
    ClimbStarts(k, data[..], isDir, dentry, mount);
    ghost var total := Rounds(k, dentry, mount, mountParent, MAX_DENTRIES);
    RoundsFault(k, dentry, mount, faulty);
    var i, atTop := 0, false;
    FaultNext(faulty, 0, 0);
    while i < MAX_DENTRIES && !atTop
      invariant 0 <= i <= MAX_DENTRIES
      invariant PATH_SIZE - 1 - 255 * i <= offset <= PATH_SIZE
      invariant Climbing(k, all, data[..], offset, isDir, dentry, mount, mountParent, MAX_DENTRIES - i, raw)
      invariant atTop ==> Top(k, dentry, mount, mountParent) && total == i + 1 && !FaultBelow(faulty, total)
      invariant Located(k, dentry, mount) && data[0] == old(data[0])
      invariant total == i + Rounds(k, dentry, mount, mountParent, MAX_DENTRIES - i)
      invariant !FaultBelow(faulty, i)
      decreases MAX_DENTRIES - i, !atTop
    {
      FaultNext(faulty, i, total);
      if i in faulty {
        SomeRound(k, dentry, mount, mountParent, MAX_DENTRIES - i);
        return CoreRead;
      }
      var step;
      step, raw := ClimbOne(k, all, data, offset, isDir, dentry, mount, mountParent, MAX_DENTRIES - i, raw);
      match step {
        case Stop => atTop := true;
        case TooLong => return NameTooLong;
        case Next(o, d, m, p) =>
          offset, dentry, mount, mountParent := o, d, m, p;
          i := i + 1;
      }
    }
    ClimbEnds(k, all, data[..], offset, isDir, dentry, mount, mountParent, MAX_DENTRIES - i, raw);
    RoundsEnd(k, dentry, mount, mountParent, MAX_DENTRIES - i);
    return Offset(offset);
  }

  /** Builds the path of a dentry; faulty holds the steps at which a kernel read
      fails.  Then the record holds an empty path. */
  method ReadPath(k: Kernel, dentry: int, mount: int, out: PathDentries, isDir: bool, faulty: set<int>)
    returns (r: Outcome)
    requires Located(k, dentry, mount) && out.data.Length == PATH_SIZE
    modifies out, out.data
    ensures match r
            case Offset(o) =>
              o == out.offset && out.Holds(PathString(StoredNames(Ancestry(k, dentry, mount)), isDir))
            case CoreRead => out.offset == 0 && out.data[0] == NUL
            case NameTooLong => false
    ensures r == CoreRead <==> MeetsFault(k, dentry, mount, faulty)
  {
    hide MeetsFault;
    out.data[0] := NUL;
    out.offset := 0;
    r := Climb(k, dentry, mount, out.data, isDir, faulty);
    if r.Offset? {
      hide *;
      var offset := Finish(out, r.offset, isDir, StoredNames(Ancestry(k, dentry, mount)));
      r := Offset(offset);
    }
  }
}
