/** The enter and exit handlers of logger/bpf/file.bpf.c and logger/bpf/sock.bpf.c.
    An enter handler leaves the arguments of a call in a hash map under the id of
    its thread; the exit handler looks them up, sends an event and takes them out. */
module Pairing {

  const MAX_ENTRIES := 128

  type Thread = int

  datatype Call = Write | Read | Unlink | Chmod | Chown | Rename | Connect | Listen

  /** The hash maps; calls on sockets share one. */
  datatype Table = WriteHash | ReadHash | UnlinkHash | ChmodHash | ChownHash | RenameHash | SockHash

  function TableOf(call: Call): Table {
    match call
    case Write => WriteHash
    case Read => ReadHash
    case Unlink => UnlinkHash
    case Chmod => ChmodHash
    case Chown => ChownHash
    case Rename => RenameHash
    case Connect => SockHash
    case Listen => SockHash
  }

  /** What a call was made with: descriptors, names and numbers such as a count,
      a mode, flags or owners; emptyPath is the flag AT_EMPTY_PATH. */
  datatype Args = Args(fd: int, newFd: int, name: string, newName: string, emptyPath: bool, numbers: seq<int>)

  /** The arguments as the enter handler reads them: with the flag set, a change
      of mode or owner has no name. */
  function AsRead(call: Call, args: Args): Args {
    if (call == Chmod || call == Chown) && args.emptyPath then args.(name := "") else args
  }

  datatype Layout = Plain | AbsolutePath | AbsoluteFd | RelativeFd | TwoFds

  predicate Absolute(name: string) {
    name != "" && name[0] == '/'
  }

  /** Which record an exit handler reserves. */
  function LayoutOf(call: Call, args: Args): Layout {
    match call
    case Unlink => if Absolute(args.name) then AbsolutePath else RelativeFd
    case Chmod => if Absolute(args.name) then AbsolutePath else if args.name == "" then AbsoluteFd else RelativeFd
    case Chown => if Absolute(args.name) then AbsolutePath else if args.name == "" then AbsoluteFd else RelativeFd
    case Rename =>
      if Absolute(args.name) && Absolute(args.newName) then AbsolutePath
      else if !Absolute(args.name) && !Absolute(args.newName) && args.fd != args.newFd then TwoFds
      else RelativeFd
    case _ => Plain
  }

  datatype Event = Event(thread: Thread, call: Call, layout: Layout, args: Args, ret: int)

  /** What the kernel shows an exit handler: whether the descriptor has a socket, whether
      its family can be read and is an internet one, whether it is closed, whether
      there is room in the ring buffer, and whether a later read fails. */
  datatype World = World(sock: bool, family: bool, inet: bool, closed: bool, room: bool, faults: bool)

  /** A handler runs: on entering a call, where the kernel shows whether the
      descriptor has a file and whether that is a regular one, or on leaving it. */
  datatype Step =
    | SysEnter(t: Thread, call: Call, args: Args, file: bool, regular: bool)
    | SysExit(t: Thread, call: Call, ret: int, world: World)

  datatype State = State(pending: map<(Table, Thread), Args>, ring: seq<Event>)

  /** The handlers of write and read skip the logger's own thread. */
  predicate Own(logger: int, t: Thread, call: Call) {
    (call == Write || call == Read) && t % 0x1_0000_0000 == logger
  }

  /** The call is one to report: for write and read, it is on a regular file. */
  predicate Accepted(logger: int, s: Step) {
    s.SysEnter? && !Own(logger, s.t, s.call) && ((s.call == Write || s.call == Read) ==> s.file && s.regular)
  }

  function Entries(pending: map<(Table, Thread), Args>, table: Table): set<(Table, Thread)> {
    set k | k in pending && k.0 == table
  }

  /** A hash map takes a new key while it has room, and an old one always. */
  predicate Fits(pending: map<(Table, Thread), Args>, key: (Table, Thread)) {
    key in pending || |Entries(pending, key.0)| < MAX_ENTRIES
  }

  /** An event is sent. */
  predicate Emits(call: Call, w: World) {
    match call
    case Connect => w.sock && w.family && !w.closed && w.inet && w.room
    case Listen => w.sock && w.family && w.inet && w.room
    case _ => w.room
  }

  /** The arguments stay in the hash map: only after listen, when sending fails. */
  predicate Keeps(call: Call, w: World) {
    call == Listen && w.sock && w.family && w.inet && (!w.room || w.faults)
  }

  /** One handler runs. */
  function Next(logger: int, q: State, s: Step): State {
    var key := (TableOf(s.call), s.t);
    match s
    case SysEnter(t, call, args, _, _) =>
      if Accepted(logger, s) && Fits(q.pending, key) then q.(pending := q.pending[key := AsRead(call, args)]) else q
    case SysExit(t, call, ret, world) =>
      if Own(logger, t, call) || key !in q.pending then q
      else
        var args := q.pending[key];
        State(if Keeps(call, world) then q.pending else q.pending - {key},
              q.ring + if Emits(call, world) then [Event(t, call, LayoutOf(call, args), args, ret)] else [])
  }

  function Run(logger: int, steps: seq<Step>): State {
    if steps == [] then State(map[], []) else Next(logger, Run(logger, steps[..|steps| - 1]), steps[|steps| - 1])
  }

  // ----- Schedules

  /** The last step of a thread, or -1. */
  function LastOf(steps: seq<Step>, t: Thread): (i: int)
    ensures -1 <= i < |steps| && (i >= 0 ==> steps[i].t == t)
    ensures forall j :: i < j < |steps| ==> steps[j].t != t
  {
    if steps == [] then -1
    else if steps[|steps| - 1].t == t then |steps| - 1
    else LastOf(steps[..|steps| - 1], t)
  }

  /** A thread enters a call when it is outside, and leaves the one it is in; the
      first exit of a thread may be from a call that began before the run. */
  predicate Allowed(before: seq<Step>, s: Step) {
    var i := LastOf(before, s.t);
    i >= 0 ==> if s.SysEnter? then before[i].SysExit? else before[i].SysEnter? && before[i].call == s.call
  }

  /** Any interleaving of any number of threads. */
  predicate Scheduled(steps: seq<Step>) {
    forall i :: 0 <= i < |steps| ==> Allowed(steps[..i], steps[i])
  }

  /** The enter at i reached its hash map. */
  predicate Stored(logger: int, steps: seq<Step>, i: int)
    requires 0 <= i < |steps|
  {
    Accepted(logger, steps[i]) && Fits(Run(logger, steps[..i]).pending, (TableOf(steps[i].call), steps[i].t))
  }

  /** The last step of a thread on a socket, or -1. */
  function LastOnSock(steps: seq<Step>, t: Thread): (i: int)
    ensures -1 <= i < |steps| && (i >= 0 ==> steps[i].t == t && TableOf(steps[i].call) == SockHash)
    ensures forall j :: i < j < |steps| ==> steps[j].t != t || TableOf(steps[j].call) != SockHash
  {
    if steps == [] then -1
    else if steps[|steps| - 1].t == t && TableOf(steps[|steps| - 1].call) == SockHash then |steps| - 1
    else LastOnSock(steps[..|steps| - 1], t)
  }

  /** The last thing the thread did with a socket was to leave a listen whose
      event could not be sent, or not without faults. */
  predicate LeftBehind(logger: int, steps: seq<Step>, t: Thread) {
    var i := LastOnSock(steps, t);
    && i >= 0 && steps[i].SysExit? && Keeps(steps[i].call, steps[i].world)
    && (SockHash, t) in Run(logger, steps[..i]).pending
  }

  /** The entry belongs to the call its thread is in. */
  predicate Current(logger: int, steps: seq<Step>, key: (Table, Thread), args: Args) {
    var i := LastOf(steps, key.1);
    && i >= 0 && steps[i].SysEnter? && TableOf(steps[i].call) == key.0 && Stored(logger, steps, i)
    && args == AsRead(steps[i].call, steps[i].args)
  }

  /** Every entry is that of the call its thread is in, or left behind by a
      listen; every call that reached its hash map has its entry there, and so
      has every thread that left one behind. */
  ghost predicate Paired(logger: int, steps: seq<Step>, q: State) {
    && (forall key :: key in q.pending ==>
          Current(logger, steps, key, q.pending[key]) || (key.0 == SockHash && LeftBehind(logger, steps, key.1)))
    && (forall i :: 0 <= i < |steps| && i == LastOf(steps, steps[i].t) && steps[i].SysEnter? &&
                    Stored(logger, steps, i) ==>
          var key := (TableOf(steps[i].call), steps[i].t);
          key in q.pending && q.pending[key] == AsRead(steps[i].call, steps[i].args))
    && (forall t :: LeftBehind(logger, steps, t) ==> (SockHash, t) in q.pending)
  }

  // ----- One more step

  lemma Extended(logger: int, steps: seq<Step>, s: Step, t: Thread)
    ensures var more := steps + [s];
            && more[..|steps|] == steps
            && LastOf(more, t) == (if s.t == t then |steps| else LastOf(steps, t))
            && LastOnSock(more, t) ==
                 (if s.t == t && TableOf(s.call) == SockHash then |steps| else LastOnSock(steps, t))
            && Run(logger, more) == Next(logger, Run(logger, steps), s)
  {
    hide Next;
    assert (steps + [s])[..|steps + [s]| - 1] == steps;
  }

  lemma StoredStays(logger: int, steps: seq<Step>, s: Step, i: int)
    requires 0 <= i < |steps|
    ensures Stored(logger, steps + [s], i) == Stored(logger, steps, i)
  {
    assert (steps + [s])[..i] == steps[..i];
  }

  lemma StoredNow(logger: int, steps: seq<Step>, s: Step)
    ensures Stored(logger, steps + [s], |steps|) ==
              (Accepted(logger, s) && Fits(Run(logger, steps).pending, (TableOf(s.call), s.t)))
  {
    assert (steps + [s])[..|steps|] == steps;
  }

  lemma LeftBehindStays(logger: int, steps: seq<Step>, s: Step, t: Thread)
    requires t != s.t || TableOf(s.call) != SockHash
    ensures LeftBehind(logger, steps + [s], t) == LeftBehind(logger, steps, t)
  {
    Extended(logger, steps, s, t);
    var i := LastOnSock(steps, t);
    hide Run, Keeps, TableOf, LastOnSock;
    if i >= 0 {
      assert (steps + [s])[..i] == steps[..i];
    }
  }

  lemma LeftBehindNow(logger: int, steps: seq<Step>, s: Step)
    requires TableOf(s.call) == SockHash && LeftBehind(logger, steps + [s], s.t)
    ensures s.SysExit? && Keeps(s.call, s.world) && (SockHash, s.t) in Run(logger, steps).pending
    ensures (SockHash, s.t) in Next(logger, Run(logger, steps), s).pending
  {
    Extended(logger, steps, s, s.t);
    hide Run;
  }

  /** What is true of an entry stays true, unless it is about the thread that makes the step. */
  lemma OthersStay(logger: int, steps: seq<Step>, s: Step, key: (Table, Thread), args: Args)
    requires key.1 != s.t || TableOf(s.call) != key.0
    requires Current(logger, steps, key, args) || (key.0 == SockHash && LeftBehind(logger, steps, key.1))
    requires Allowed(steps, s)
    ensures Current(logger, steps + [s], key, args) || (key.0 == SockHash && LeftBehind(logger, steps + [s], key.1))
  {
    Extended(logger, steps, s, key.1);
    hide Run, Fits, Accepted, Keeps, LeftBehind;
    if Current(logger, steps, key, args) {
      StoredStays(logger, steps, s, LastOf(steps, key.1));
    } else {
      LeftBehindStays(logger, steps, s, key.1);
    }
  }

  /** The one entry a step may touch. */
  lemma TouchedEntry(logger: int, steps: seq<Step>, s: Step)
    requires Allowed(steps, s) && Paired(logger, steps, Run(logger, steps))
    ensures var key, q := (TableOf(s.call), s.t), Run(logger, steps + [s]);
            key in q.pending ==>
              || Current(logger, steps + [s], key, q.pending[key])
              || (key.0 == SockHash && LeftBehind(logger, steps + [s], key.1))
  {
    hide Run, Entries;
    var key, q := (TableOf(s.call), s.t), Run(logger, steps);
    Extended(logger, steps, s, s.t);
    StoredNow(logger, steps, s);
  }

  lemma UntouchedEntry(logger: int, q: State, s: Step, key: (Table, Thread))
    requires key != (TableOf(s.call), s.t)
    ensures key in Next(logger, q, s).pending <==> key in q.pending
    ensures key in q.pending ==> Next(logger, q, s).pending[key] == q.pending[key]
  {
  }

  lemma PairedStep(logger: int, steps: seq<Step>, s: Step)
    requires Allowed(steps, s) && Paired(logger, steps, Run(logger, steps))
    ensures Paired(logger, steps + [s], Run(logger, steps + [s]))
  {
    var more, q := steps + [s], Run(logger, steps);
    var r := Run(logger, more);
    Extended(logger, steps, s, s.t);
    forall key | key in r.pending
      ensures Current(logger, more, key, r.pending[key]) || (key.0 == SockHash && LeftBehind(logger, more, key.1))
    {
      hide Run, Next, Current, LeftBehind;
      if key == (TableOf(s.call), s.t) {
        TouchedEntry(logger, steps, s);
      } else {
        UntouchedEntry(logger, q, s, key);
        OthersStay(logger, steps, s, key, r.pending[key]);
      }
    }
    forall i | 0 <= i < |more| && i == LastOf(more, more[i].t) && more[i].SysEnter? && Stored(logger, more, i)
      ensures var key := (TableOf(more[i].call), more[i].t);
              key in r.pending && r.pending[key] == AsRead(more[i].call, more[i].args)
    {
      hide Run, Current, LeftBehind, Accepted, Entries;
      if i == |steps| {
        StoredNow(logger, steps, s);
      } else {
        assert more[i] == steps[i];
        Extended(logger, steps, s, more[i].t);
        StoredStays(logger, steps, s, i);
        UntouchedEntry(logger, q, s, (TableOf(more[i].call), more[i].t));
      }
    }
    forall t | LeftBehind(logger, more, t) ensures (SockHash, t) in r.pending {
      hide Run, Next, Current, LeftBehind, Accepted, Entries;
      if t == s.t && TableOf(s.call) == SockHash {
        LeftBehindNow(logger, steps, s);
      } else {
        LeftBehindStays(logger, steps, s, t);
        UntouchedEntry(logger, q, s, (SockHash, t));
      }
    }
  }

  lemma PairedAtFirst(logger: int)
    ensures Paired(logger, [], Run(logger, []))
  {
  }

  /** Over every scheduled run, entries and calls are paired. */
  lemma {:induction false} AlwaysPaired(logger: int, steps: seq<Step>)
    requires Scheduled(steps)
    ensures Paired(logger, steps, Run(logger, steps))
    decreases |steps|
  {
    hide *;
    if steps == [] {
      PairedAtFirst(logger);
    } else {
      var front := steps[..|steps| - 1];
      LastAllowed(steps);
      AlwaysPaired(logger, front);
      assert front + [steps[|steps| - 1]] == steps;
      PairedStep(logger, front, steps[|steps| - 1]);
    }
  }

  lemma LastAllowed(steps: seq<Step>)
    requires Scheduled(steps) && steps != []
    ensures Allowed(steps[..|steps| - 1], steps[|steps| - 1]) && Scheduled(steps[..|steps| - 1])
  {
    hide Allowed;
    var front := steps[..|steps| - 1];
    assert forall i :: 0 <= i < |front| ==> front[..i] == steps[..i];
  }

  // ----- What the events tell

  /** The exit at x reports its call. */
  predicate Reported(logger: int, steps: seq<Step>, x: int)
    requires 0 <= x < |steps|
  {
    && steps[x].SysExit?
    && var e := LastOf(steps[..x], steps[x].t);
       e >= 0 && Stored(logger, steps, e) && Emits(steps[x].call, steps[x].world)
  }

  /** The reported calls of a run, in order: where each was entered and left. */
  function Reports(logger: int, steps: seq<Step>): seq<(int, int)> {
    if steps == [] then []
    else
      var front, x := steps[..|steps| - 1], |steps| - 1;
      Reports(logger, front) + if Reported(logger, steps, x) then [(LastOf(front, steps[x].t), x)] else []
  }

  /** The event that reports the call entered by one step and left by another. */
  function Told(enter: Step, exit: Step): Event
    requires enter.SysEnter? && exit.SysExit?
  {
    var args := AsRead(enter.call, enter.args);
    Event(enter.t, enter.call, LayoutOf(enter.call, args), args, exit.ret)
  }

  /** A call of one thread: entered at e, left at x, with no step of that thread between. */
  predicate Whole(steps: seq<Step>, e: int, x: int) {
    && 0 <= e < x < |steps| && steps[e].SysEnter? && steps[x].SysExit?
    && steps[e].t == steps[x].t && steps[e].call == steps[x].call
    && forall j :: e < j < x ==> steps[j].t != steps[e].t
  }

  /** The events sent are one for each reported call, in the order of the exits,
      and each tells its own call. */
  ghost predicate Explained(logger: int, steps: seq<Step>, ring: seq<Event>) {
    var rs := Reports(logger, steps);
    && |ring| == |rs|
    && (forall k :: 0 <= k < |rs| ==>
          && Whole(steps, rs[k].0, rs[k].1) && Stored(logger, steps, rs[k].0)
          && ring[k] == Told(steps[rs[k].0], steps[rs[k].1]))
    && (forall k, l :: 0 <= k < l < |rs| ==> rs[k].0 != rs[l].0 && rs[k].1 < rs[l].1)
  }

  /** An exit handler finds an entry exactly if the call it leaves reached its
      hash map, and then that entry. */
  lemma EntryOfExit(logger: int, steps: seq<Step>, s: Step)
    requires s.SysExit? && Allowed(steps, s) && Paired(logger, steps, Run(logger, steps))
    ensures var e, q, key := LastOf(steps, s.t), Run(logger, steps), (TableOf(s.call), s.t);
            && (key in q.pending <==> e >= 0 && Stored(logger, steps, e))
            && (key in q.pending ==>
                  && !Own(logger, s.t, s.call) && Whole(steps + [s], e, |steps|)
                  && q.pending[key] == AsRead(steps[e].call, steps[e].args))
  {
    hide *;
    var e, q, key := LastOf(steps, s.t), Run(logger, steps), (TableOf(s.call), s.t);
    if key in q.pending {
      PendingIsCurrent(logger, steps, s);
      CallOfExit(logger, steps, s);
    } else if e >= 0 && Stored(logger, steps, e) {
      CallOfExit(logger, steps, s);
      StoredIsPending(logger, steps, e);
    }
  }

  /** The entry an exit handler looks up, if it is there, is that of the call the thread is in. */
  lemma PendingIsCurrent(logger: int, steps: seq<Step>, s: Step)
    requires s.SysExit? && Allowed(steps, s) && Paired(logger, steps, Run(logger, steps))
    requires (TableOf(s.call), s.t) in Run(logger, steps).pending
    ensures var e := LastOf(steps, s.t);
            && e >= 0 && steps[e].SysEnter? && Stored(logger, steps, e)
            && Run(logger, steps).pending[(TableOf(s.call), s.t)] == AsRead(steps[e].call, steps[e].args)
  {
    hide Run, Stored, AsRead, TableOf, LeftBehind, LastOf;
    var key := (TableOf(s.call), s.t);
    if key.0 == SockHash { NothingLeftInside(logger, steps, s); }
    assert Current(logger, steps, key, Run(logger, steps).pending[key]);
  }

  /** A thread that leaves a call on a socket has left nothing behind before. */
  lemma NothingLeftInside(logger: int, steps: seq<Step>, s: Step)
    requires s.SysExit? && Allowed(steps, s) && TableOf(s.call) == SockHash
    ensures !LeftBehind(logger, steps, s.t)
  {
    hide Run, Keeps, TableOf, LastOf, LastOnSock;
    var e, i := LastOf(steps, s.t), LastOnSock(steps, s.t);
    if e >= 0 {
      assert i == e;
    }
  }

  lemma StoredIsPending(logger: int, steps: seq<Step>, e: int)
    requires Paired(logger, steps, Run(logger, steps))
    requires 0 <= e < |steps| && e == LastOf(steps, steps[e].t) && steps[e].SysEnter? && Stored(logger, steps, e)
    ensures (TableOf(steps[e].call), steps[e].t) in Run(logger, steps).pending
  {
    hide Run, Stored, Current, LeftBehind, AsRead, TableOf;
  }

  /** It is one whole call, and not the logger's if it was stored. */
  lemma CallOfExit(logger: int, steps: seq<Step>, s: Step)
    requires s.SysExit? && Allowed(steps, s) && LastOf(steps, s.t) >= 0
    ensures var e := LastOf(steps, s.t);
            && steps[e].SysEnter? && steps[e].t == s.t && steps[e].call == s.call && e == LastOf(steps, steps[e].t)
            && Whole(steps + [s], e, |steps|)
            && (Stored(logger, steps, e) ==> !Own(logger, s.t, s.call))
  {
    hide Run, Fits;
  }

  /** The event of one more step. */
  lemma ExitTells(logger: int, steps: seq<Step>, s: Step)
    requires Allowed(steps, s) && Paired(logger, steps, Run(logger, steps))
    ensures var e, more := LastOf(steps, s.t), steps + [s];
            && (Reported(logger, more, |steps|) ==> Whole(more, e, |steps|) && Stored(logger, more, e))
            && Run(logger, more).ring ==
                 Run(logger, steps).ring + if Reported(logger, more, |steps|) then [Told(more[e], s)] else []
  {
    var e, more := LastOf(steps, s.t), steps + [s];
    Extended(logger, steps, s, s.t);
    if s.SysExit? {
      EntryOfExit(logger, steps, s);
      if e >= 0 {
        StoredStays(logger, steps, s, e);
      }
      hide Run, Emits, Keeps, LayoutOf, Own, Stored, LastOf, Paired, Allowed;
    } else {
      hide Run;
    }
  }

  lemma WholeStays(logger: int, steps: seq<Step>, s: Step, e: int, x: int)
    requires Whole(steps, e, x) && Stored(logger, steps, e)
    ensures Whole(steps + [s], e, x) && Stored(logger, steps + [s], e)
    ensures Told((steps + [s])[e], (steps + [s])[x]) == Told(steps[e], steps[x])
  {
    hide Stored, Told;
    StoredStays(logger, steps, s, e);
  }

  lemma ReportsGrow(logger: int, steps: seq<Step>, s: Step)
    ensures Reports(logger, steps + [s]) ==
              Reports(logger, steps) +
              if Reported(logger, steps + [s], |steps|) then [(LastOf(steps, s.t), |steps|)] else []
  {
    hide Reported, LastOf;
    assert (steps + [s])[..|steps + [s]| - 1] == steps;
  }

  lemma ExplainedStep(logger: int, steps: seq<Step>, s: Step)
    requires Allowed(steps, s) && Paired(logger, steps, Run(logger, steps))
    requires Explained(logger, steps, Run(logger, steps).ring)
    ensures Explained(logger, steps + [s], Run(logger, steps + [s]).ring)
  {
    hide Run, Reports, Stored, Told, Paired, Allowed, Reported;
    var more, e, n := steps + [s], LastOf(steps, s.t), |steps|;
    ExitTells(logger, steps, s);
    ReportsGrow(logger, steps, s);
    var rs, ring := Reports(logger, steps), Run(logger, steps).ring;
    forall k | 0 <= k < |rs|
      ensures Whole(more, rs[k].0, rs[k].1) && Stored(logger, more, rs[k].0)
      ensures ring[k] == Told(more[rs[k].0], more[rs[k].1])
      ensures rs[k].0 != e && rs[k].1 < n
    {
      WholeStays(logger, steps, s, rs[k].0, rs[k].1);
    }
    hide Whole, LastOf;
  }

  lemma ExplainedAtFirst(logger: int)
    ensures Explained(logger, [], Run(logger, []).ring)
  {
  }

  /** Over every run of every number of threads, with full hash maps and a full
      ring buffer: each event tells the arguments of its own thread's own call,
      which was accepted; no call is told twice; and events are in the order of
      the exits. */
  lemma {:induction false} EventsAreExplained(logger: int, steps: seq<Step>)
    requires Scheduled(steps)
    ensures Explained(logger, steps, Run(logger, steps).ring)
    decreases |steps|
  {
    hide *;
    if steps == [] {
      ExplainedAtFirst(logger);
    } else {
      var front := steps[..|steps| - 1];
      LastAllowed(steps);
      EventsAreExplained(logger, front);
      AlwaysPaired(logger, front);
      assert front + [steps[|steps| - 1]] == steps;
      ExplainedStep(logger, front, steps[|steps| - 1]);
    }
  }

  /** Each event, told without regard to how a handler reads and sends: it tells
      the thread, the call and the result, and the arguments the call was entered
      with, all but the name of a change of mode or owner made with the flag. */
  lemma EventTells(logger: int, steps: seq<Step>, k: nat)
    requires Scheduled(steps) && k < |Reports(logger, steps)|
    ensures |Run(logger, steps).ring| == |Reports(logger, steps)|
    ensures var (e, x) := Reports(logger, steps)[k];
            && 0 <= e < x < |steps| && steps[e].SysEnter? && steps[x].SysExit?
            && var event, enter, exit := Run(logger, steps).ring[k], steps[e], steps[x];
               && event.thread == enter.t == exit.t && event.call == enter.call == exit.call && event.ret == exit.ret
               && event.args.fd == enter.args.fd && event.args.newFd == enter.args.newFd
               && event.args.newName == enter.args.newName && event.args.emptyPath == enter.args.emptyPath
               && event.args.numbers == enter.args.numbers
               && event.args.name ==
                    if enter.args.emptyPath && (enter.call == Chmod || enter.call == Chown) then "" else enter.args.name
  {
    EventsAreExplained(logger, steps);
    hide Run, Reports, Stored, LayoutOf;
    var (e, x) := Reports(logger, steps)[k];
    assert Whole(steps, e, x);
  }

  /** The record of each event, by the names and descriptors it tells. */
  lemma RecordTells(logger: int, steps: seq<Step>, k: nat)
    requires Scheduled(steps) && k < |Run(logger, steps).ring|
    ensures var event := Run(logger, steps).ring[k];
            var name, newName := event.args.name, event.args.newName;
            && (event.layout == AbsolutePath <==>
                  && (event.call in {Unlink, Chmod, Chown, Rename}) && "/" <= name
                  && (event.call == Rename ==> "/" <= newName))
            && (event.layout == AbsoluteFd <==> event.call in {Chmod, Chown} && name == "")
            && (event.layout == TwoFds <==>
                  && event.call == Rename && !("/" <= name) && !("/" <= newName)
                  && event.args.fd != event.args.newFd)
            && (event.layout == Plain <==> event.call in {Write, Read, Connect, Listen})
  {
    EventsAreExplained(logger, steps);
    hide Run, Reports, Stored, AsRead;
    var event := Run(logger, steps).ring[k];
    var (e, x) := Reports(logger, steps)[k];
    assert event == Told(steps[e], steps[x]);
    assert "/" <= event.args.name <==> Absolute(event.args.name);
    assert "/" <= event.args.newName <==> Absolute(event.args.newName);
  }

  /** Which exits report: those of the call the thread last entered, if that was
      on a regular file and not by the logger where it reads or writes, if there
      was an entry to overwrite or room for one more, and if there is room for the
      event; a connect or listen needs an internet socket, a connect one that is
      not closed. */
  lemma ReportedExactly(logger: int, steps: seq<Step>, x: int)
    requires Scheduled(steps) && 0 <= x < |steps|
    ensures var e, exit := LastOf(steps[..x], steps[x].t), steps[x];
            Reported(logger, steps, x) <==>
              && exit.SysExit? && e >= 0 && steps[e].SysEnter? && steps[e].call == exit.call
              && (exit.call == Write || exit.call == Read ==>
                    steps[e].file && steps[e].regular && exit.t % 0x1_0000_0000 != logger)
              && (var pending, key := Run(logger, steps[..e]).pending, (TableOf(exit.call), exit.t);
                  key in pending || |set other | other in pending && other.0 == key.0| < 128)
              && exit.world.room
              && (exit.call == Connect || exit.call == Listen ==>
                    exit.world.sock && exit.world.family && exit.world.inet)
              && (exit.call == Connect ==> !exit.world.closed)
  {
    hide Run;
    var e := LastOf(steps[..x], steps[x].t);
    assert Allowed(steps[..x], steps[x]);
    if e >= 0 {
      var pending, table := Run(logger, steps[..e]).pending, TableOf(steps[x].call);
      assert Entries(pending, table) == set other | other in pending && other.0 == table;
    }
  }

  /** What a thread leaves behind: the last thing it did with a socket was to
      leave a listen on an internet socket, with its entry there, whose event had
      no room or was sent with a fault. */
  lemma LeftBehindExactly(logger: int, steps: seq<Step>, t: Thread)
    ensures LeftBehind(logger, steps, t) <==>
              exists i :: 0 <= i < |steps| && LastOnSock(steps, t) == i &&
                var exit := steps[i];
                && exit.SysExit? && exit.call == Listen && exit.t == t
                && exit.world.sock && exit.world.family && exit.world.inet
                && (!exit.world.room || exit.world.faults)
                && (SockHash, t) in Run(logger, steps[..i]).pending
  {
    hide Run;
  }

  /** Only connect and listen share a hash map. */
  lemma TablesShared(c: Call, d: Call)
    ensures TableOf(c) == TableOf(d) <==> c == d || (c in {Connect, Listen} && d in {Connect, Listen})
    ensures TableOf(c) == SockHash <==> c in {Connect, Listen}
  {
  }

  /** Every exit that reports is among the reported calls. */
  lemma {:induction false} NoReportIsMissing(logger: int, steps: seq<Step>, x: int)
    requires 0 <= x < |steps| && Reported(logger, steps, x)
    ensures (LastOf(steps[..x], steps[x].t), x) in Reports(logger, steps)
    decreases |steps|
  {
    var front := steps[..|steps| - 1];
    if x < |front| {
      assert front[..x] == steps[..x] && front + [steps[|steps| - 1]] == steps;
      if LastOf(steps[..x], steps[x].t) >= 0 {
        StoredStays(logger, front, steps[|steps| - 1], LastOf(steps[..x], steps[x].t));
      }
      hide LastOf, Stored, Emits;
      NoReportIsMissing(logger, front, x);
      assert Reports(logger, front) <= Reports(logger, steps);
    }
  }

  /** And no others are: each names an exit that reports and the enter before it. */
  lemma {:induction false} OnlyReports(logger: int, steps: seq<Step>, k: nat)
    requires k < |Reports(logger, steps)|
    ensures var (e, x) := Reports(logger, steps)[k];
            0 <= x < |steps| && Reported(logger, steps, x) && e == LastOf(steps[..x], steps[x].t)
    decreases |steps|
  {
    var front := steps[..|steps| - 1];
    if k < |Reports(logger, front)| {
      OnlyReports(logger, front, k);
      var (e, x) := Reports(logger, front)[k];
      assert front[..x] == steps[..x] && front + [steps[|steps| - 1]] == steps;
      if e >= 0 {
        StoredStays(logger, front, steps[|steps| - 1], e);
      }
    }
  }

  /** A thread that is in no call. */
  predicate Outside(steps: seq<Step>, t: Thread) {
    var i := LastOf(steps, t);
    i >= 0 ==> steps[i].SysExit?
  }

  /** A thread outside has an entry exactly if its last listen left one behind. */
  lemma OutsideEntries(logger: int, steps: seq<Step>, key: (Table, Thread))
    requires Scheduled(steps) && Outside(steps, key.1)
    ensures key in Run(logger, steps).pending <==> key.0 == SockHash && LeftBehind(logger, steps, key.1)
  {
    AlwaysPaired(logger, steps);
    hide Run, LeftBehind, Stored;
  }

  /** So if every event of a listen can be sent, all entries belong to threads in their calls. */
  lemma EntriesAreInside(logger: int, steps: seq<Step>)
    requires Scheduled(steps)
    requires forall i :: 0 <= i < |steps| && steps[i].SysExit? ==> !Keeps(steps[i].call, steps[i].world)
    ensures forall key :: key in Run(logger, steps).pending ==>
              Current(logger, steps, key, Run(logger, steps).pending[key])
  {
    AlwaysPaired(logger, steps);
    hide Run, Stored, Keeps;
  }

  /** A listen whose event finds no room leaves its entry behind. */
  lemma ListenLeavesBehind(logger: int, t: Thread, args: Args)
    ensures var exit := SysExit(t, Listen, 0, World(true, true, true, false, false, false));
            var steps := [SysEnter(t, Listen, args, true, false), exit];
            Scheduled(steps) && Outside(steps, t) && Run(logger, steps) == State(map[(SockHash, t) := args], [])
  {
    var enter := SysEnter(t, Listen, args, true, false);
    var exit := SysExit(t, Listen, 0, World(true, true, true, false, false, false));
    var steps := [enter, exit];
    assert steps[..1] == [enter] && steps[..0] == [] && [enter][..0] == [];
    assert Entries(map[], SockHash) == {};
    assert Run(logger, [enter]) == State(map[(SockHash, t) := args], []);
  }

  /** No hash map ever holds more than it has room for. */
  lemma {:induction false} WithinCapacity(logger: int, steps: seq<Step>, table: Table)
    ensures |Entries(Run(logger, steps).pending, table)| <= 128
    decreases |steps|
  {
    if steps == [] {
      assert Entries(map[], table) == {};
    } else {
      WithinCapacity(logger, steps[..|steps| - 1], table);
      CapacityStep(logger, Run(logger, steps[..|steps| - 1]), steps[|steps| - 1], table);
    }
  }

  lemma CapacityStep(logger: int, q: State, s: Step, table: Table)
    requires |Entries(q.pending, table)| <= MAX_ENTRIES
    ensures |Entries(Next(logger, q, s).pending, table)| <= MAX_ENTRIES
  {
    var key := (TableOf(s.call), s.t);
    var before, after := Entries(q.pending, table), Entries(Next(logger, q, s).pending, table);
    if s.SysExit? || key.0 != table || key in q.pending {
      assert after <= before;
      Subset(after, before);
    } else {
      assert after <= before + {key};
      Subset(after, before + {key});
    }
  }

  lemma {:induction false} Subset<T>(a: set<T>, b: set<T>)
    requires a <= b
    ensures |a| <= |b|
  {
    if a != {} {
      var x :| x in a;
      Subset(a - {x}, b - {x});
    }
  }

  // ----- The handlers

  /** The hash maps and the ring buffer the handlers share. */
  class Tracepoints {
    const logger: int
    var pending: map<(Table, Thread), Args>
    var ring: seq<Event>

    constructor (logger: int)
      ensures this.logger == logger && Now() == State(map[], [])
    {
      this.logger := logger;
      pending, ring := map[], [];
    }

    function Now(): State
      reads this
    {
      State(pending, ring)
    }

    method UpdateElem(key: (Table, Thread), args: Args)
      modifies this`pending
      ensures pending == if Fits(old(pending), key) then old(pending)[key := args] else old(pending)
      ensures Fits(old(pending), key) <==>
                key in old(pending) || |set other | other in old(pending) && other.0 == key.0| < 128
    {
      if key in pending || |set k | k in pending && k.0 == key.0| < MAX_ENTRIES {
        pending := pending[key := args];
      }
    }

    method DeleteElem(key: (Table, Thread))
      modifies this`pending
      ensures pending == old(pending) - {key}
    {
      pending := pending - {key};
    }

    /** Enter of write and read. */
    method OnSysEnterFile(t: Thread, call: Call, args: Args, file: bool, regular: bool) returns (r: int)
      requires call == Write || call == Read
      modifies this
      ensures Now() == Next(logger, old(Now()), SysEnter(t, call, args, file, regular))
      ensures r == if file || t % 0x1_0000_0000 == logger then 0 else 1
    {
      if t % 0x1_0000_0000 == logger {
        return 0;
      }
      if !file {
        return 1;
      }
      if !regular {
        return 0;
      }
      UpdateElem((TableOf(call), t), args);
      return 0;
    }

    /** Enter of unlink and rename. */
    method OnSysEnterName(t: Thread, call: Call, args: Args, file: bool, regular: bool) returns (r: int)
      requires call == Unlink || call == Rename
      modifies this
      ensures Now() == Next(logger, old(Now()), SysEnter(t, call, args, file, regular)) && r == 0
    {
      UpdateElem((TableOf(call), t), args);
      return 0;
    }

    /** Enter of chmod and chown. */
    method OnSysEnterChange(t: Thread, call: Call, args: Args, file: bool, regular: bool) returns (r: int)
      requires call == Chmod || call == Chown
      modifies this
      ensures Now() == Next(logger, old(Now()), SysEnter(t, call, args, file, regular)) && r == 0
    {
      var enter := args.(name := "");
      if !args.emptyPath {
        enter := enter.(name := args.name);
      }
      UpdateElem((TableOf(call), t), enter);
      return 0;
    }

    /** Enter of connect and listen. */
    method OnSysEnterSock(t: Thread, call: Call, args: Args, file: bool, regular: bool)
      requires call == Connect || call == Listen
      modifies this
      ensures Now() == Next(logger, old(Now()), SysEnter(t, call, args, file, regular))
    {
      UpdateElem((SockHash, t), args);
    }

    /** Reserves a record, fills it and submits it, if there is room. */
    method Send(room: bool, event: Event) returns (sent: bool)
      modifies this`ring
      ensures sent == room && ring == old(ring) + if room then [event] else []
    {
      if room {
        ring := ring + [event];
      }
      return room;
    }

    /** Exit of write and read. */
    method OnSysExitFile(t: Thread, call: Call, ret: int, world: World) returns (r: int)
      requires call == Write || call == Read
      modifies this
      ensures Now() == Next(logger, old(Now()), SysExit(t, call, ret, world))
      ensures r == if t % 0x1_0000_0000 == logger || (TableOf(call), t) in old(pending) then 0 else 1
    {
      var key := (TableOf(call), t);
      if t % 0x1_0000_0000 == logger {
        return 0;
      }
      if key !in pending {
        return 1;
      }
      var sent := Send(world.room, Event(t, call, Plain, pending[key], ret));
      DeleteElem(key);
      return 0;
    }

    /** Exit of unlink, chmod and chown. */
    method OnSysExitName(t: Thread, call: Call, ret: int, world: World) returns (r: int)
      requires call == Unlink || call == Chmod || call == Chown
      modifies this
      ensures Now() == Next(logger, old(Now()), SysExit(t, call, ret, world))
      ensures r == if (TableOf(call), t) in old(pending) then 0 else 1
    {
      var key := (TableOf(call), t);
      if key !in pending {
        return 1;
      }
      var enter, sent := pending[key], false;
      if enter.name != "" && enter.name[0] == '/' {
        sent := Send(world.room, Event(t, call, AbsolutePath, enter, ret));
      } else if enter.name == "" && call != Unlink {
        sent := Send(world.room, Event(t, call, AbsoluteFd, enter, ret));
      } else {
        sent := Send(world.room, Event(t, call, RelativeFd, enter, ret));
      }
      DeleteElem(key);
      return 0;
    }

    /** Exit of rename. */
    method OnSysExitRename(t: Thread, ret: int, world: World) returns (r: int)
      modifies this
      ensures Now() == Next(logger, old(Now()), SysExit(t, Rename, ret, world))
      ensures r == if (RenameHash, t) in old(pending) then 0 else 1
    {
      var key := (RenameHash, t);
      if key !in pending {
        return 1;
      }
      var enter, sent := pending[key], false;
      if Absolute(enter.name) && Absolute(enter.newName) {
        sent := Send(world.room, Event(t, Rename, AbsolutePath, enter, ret));
      } else if !Absolute(enter.name) && !Absolute(enter.newName) && enter.fd != enter.newFd {
        sent := Send(world.room, Event(t, Rename, TwoFds, enter, ret));
      } else {
        sent := Send(world.room, Event(t, Rename, RelativeFd, enter, ret));
      }
      DeleteElem(key);
      return 0;
    }

    /** Exit of connect: takes the entry out before it sends. */
    method OnSysExitSock(t: Thread, ret: int, world: World) returns (r: int)
      modifies this
      ensures Now() == Next(logger, old(Now()), SysExit(t, Connect, ret, world))
      ensures r == 0 <==>
                && (SockHash, t) in old(pending) && world.sock && world.family
                && (world.closed || !world.inet || (world.room && !world.faults))
      ensures r == 0 || r == 1
    {
      var key := (SockHash, t);
      if key !in pending {
        return 1;
      }
      var enter := pending[key];
      if !world.sock {
        DeleteElem(key);
        return 1;
      }
      DeleteElem(key);
      if !world.family {
        return 1;
      }
      if world.closed || !world.inet {
        return 0;
      }
      var sent := Send(world.room, Event(t, Connect, Plain, enter, ret));
      return if sent && !world.faults then 0 else 1;
    }

    /** Exit of listen: sends first, and takes the entry out only if that went well. */
    method OnSysExitListen(t: Thread, ret: int, world: World) returns (r: int)
      modifies this
      ensures Now() == Next(logger, old(Now()), SysExit(t, Listen, ret, world))
      ensures r == 0 <==>
                && (SockHash, t) in old(pending) && world.sock
                && (!world.family || !world.inet || (world.room && !world.faults))
      ensures r == 0 || r == 1
    {
      var key := (SockHash, t);
      if key !in pending {
        return 1;
      }
      if !world.sock {
        DeleteElem(key);
        return 1;
      }
      if world.family && world.inet {
        var sent := Send(world.room, Event(t, Listen, Plain, pending[key], ret));
        if !sent || world.faults {
          return 1;
        }
      }
      DeleteElem(key);
      return 0;
    }

    /** The handler the kernel runs for a step. */
    method Handle(s: Step)
      modifies this
      ensures Now() == Next(logger, old(Now()), s)
    {
      hide *;
      var r: int;
      match s
      case SysEnter(t, call, args, file, regular) =>
        match call {
          case Write => r := OnSysEnterFile(t, call, args, file, regular);
          case Read => r := OnSysEnterFile(t, call, args, file, regular);
          case Unlink => r := OnSysEnterName(t, call, args, file, regular);
          case Rename => r := OnSysEnterName(t, call, args, file, regular);
          case Chmod => r := OnSysEnterChange(t, call, args, file, regular);
          case Chown => r := OnSysEnterChange(t, call, args, file, regular);
          case Connect => OnSysEnterSock(t, call, args, file, regular);
          case Listen => OnSysEnterSock(t, call, args, file, regular);
        }
      case SysExit(t, call, ret, world) =>
        match call {
          case Write => r := OnSysExitFile(t, call, ret, world);
          case Read => r := OnSysExitFile(t, call, ret, world);
          case Unlink => r := OnSysExitName(t, call, ret, world);
          case Chmod => r := OnSysExitName(t, call, ret, world);
          case Chown => r := OnSysExitName(t, call, ret, world);
          case Rename => r := OnSysExitRename(t, ret, world);
          case Connect => r := OnSysExitSock(t, ret, world);
          case Listen => r := OnSysExitListen(t, ret, world);
        }
    }
  }

  /** The handlers over a whole run: their ring buffer holds the explained events. */
  method Trace(logger: int, steps: seq<Step>) returns (p: Tracepoints)
    requires Scheduled(steps)
    ensures p.Now() == Run(logger, steps) && Explained(logger, steps, p.ring)
  {
    p := new Tracepoints(logger);
    var i := 0;
    assert steps[..0] == [];
    while i < |steps|
      invariant 0 <= i <= |steps| && p.logger == logger && fresh(p)
      invariant p.Now() == Run(logger, steps[..i])
    {
      p.Handle(steps[i]);
      assert steps[..i + 1][..i] == steps[..i];
      i := i + 1;
    }
    assert steps[..|steps|] == steps;
    EventsAreExplained(logger, steps);
  }
}
