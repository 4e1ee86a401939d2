/**
 The SliccFork object of shims/slicc/slicc-fork.js and the wait table it shares with
 shims/slicc/slicc_spawn.c, changed in place, proved to take the steps of ForkModel.
 */
module ForkObject {
  import opened Bytes
  import opened ForkModel
  import opened ForkReports

  /** How a process's turn ends: control comes back to the driver. */
  datatype Ending =
    | ForksAt(sp: int, data: int)
    | ReturnsWith(ret: int)
    | ExitsWith(code: int)
    // exec: in a child under a kernel the kernel's process takes over and the child exits with
    // 0; elsewhere the process waits for the program and exits with its code
    | ExecsAs(kernelPid: nat, code: int)
    | Crashes

  /** What a process does in one turn. */
  datatype Turn = Turn(actions: seq<Event>, ending: Ending)

  predicate Quiet(actions: seq<Event>) {
    forall k :: 0 <= k < |actions| ==> !actions[k].Forks? && !Over(actions[k])
  }

  predicate AllQuiet(script: seq<Turn>) {
    forall k :: 0 <= k < |script| ==> Quiet(script[k].actions)
  }

  /** `(code & 0xff) << 8`. */
  function WaitStatus(code: int): int {
    code % 256 * 256
  }

  function EventOf(e: Ending): Event {
    match e
    case ForksAt(sp, data) => Forks(sp, data)
    case ReturnsWith(ret) => Ends(WaitStatus(ret))
    case ExitsWith(code) => Ends(WaitStatus(code))
    case ExecsAs(kernelPid, _) => Execs(kernelPid)
    case Crashes => Ends(6)
  }

  // ----- What a parent learns -----

  /** The wait status that tells of an ending, as `WIFEXITED`, `WEXITSTATUS` and `WTERMSIG` read
      it: the low seven bits are the signal, and bits 8 to 15 the low eight of the exit code. */
  predicate Tells(status: int, e: Ending) {
    match e
    case ReturnsWith(ret) => 0 <= status < 65536 && status % 128 == 0 && status / 256 == ret % 256 && status / 128 % 2 == 0
    case ExitsWith(code) => 0 <= status < 65536 && status % 128 == 0 && status / 256 == code % 256 && status / 128 % 2 == 0
    case Crashes => status == 6
    case ExecsAs(kernelPid, _) => kernelPid == 0 && status == 0
    case ForksAt(_, _) => false
  }

  /** What the end of a child adds to its parent's tables: one exit entry that tells of it, or an
      alias for the kernel process that goes on in its place. */
  predicate Recounts(p: State, t: State, e: Ending) {
    var child := FreshPid(p);
    if e.ExecsAs? && e.kernelPid != 0 then
      t.exited == p.exited && t.aliases == p.aliases[child := e.kernelPid]
    else
      && t.aliases == p.aliases && |t.exited| == |p.exited| + 1 && t.exited[..|p.exited|] == p.exited
      && t.exited[|p.exited|].pid == child && Tells(t.exited[|p.exited|].status, e)
  }

  /** A pid not given out yet has no entry. */
  lemma FreshEntry(s: State)
    requires Sound(s)
    ensures Find(s.exited, FreshPid(s)).None?
    ensures forall k :: 0 <= k < |s.exited| ==> s.exited[k].pid != FreshPid(s)
  {
    forall k | 0 <= k < |s.exited| ensures s.exited[k].pid != FreshPid(s) {
      assert Report(s.pid, s.exited[k].pid, s.exited[k].status) in s.finished;
    }
  }

  lemma StatusTells(code: int)
    ensures Tells(WaitStatus(code), ExitsWith(code)) && Tells(WaitStatus(code), ReturnsWith(code))
  {
  }

  /** Over a child's whole life, nested forks included, to its parent's wait: the parent learns how
      the child ended, and waiting for the child, or for any when it has no other entry, gives
      just that. A child that exec'd under a kernel leaves nothing to wait for in the table. */
  lemma ChildRecounted(p: State, body: seq<Event>, e: Ending)
    requires Sound(p) && AllApart(p) && !e.ForksAt?
    requires StaysAbove(body, |p.stack| + 1, |p.stack| + 1) && Depth(body) == 0
    ensures StaysAbove(body, |p.stack| + 1, 0) && Run(Rewound(Begin(p)), body).stack != []
    ensures var t, child := Step(Run(Rewound(Begin(p)), body), EventOf(e)), FreshPid(p);
            && Recounts(p, t, e)
            && match Waitable(t, child)
               case Some(k) => t.exited[k].pid == child && Tells(t.exited[k].status, e)
               case None => e.ExecsAs? && e.kernelPid != 0
  {
    var c := Rewound(Begin(p));
    ForkSound(p);
    ChildStack(p, body);
    RunSound(c, body);
    var s := Run(c, body);
    ChildEnds(p, s, body, e);
    ChildWaited(p, Step(s, EventOf(e)), e);
  }

  lemma FinishRecounts(p: State, s: State, status: int, e: Ending)
    requires s.stack != [] && Finish(s, status) == GivenBack(p, s, status)
    requires s.execPid == 0 ==> Tells(status, e) && (e.ExecsAs? ==> e.kernelPid == 0)
    requires s.execPid != 0 ==> e.ExecsAs? && e.kernelPid == s.execPid
    ensures Recounts(p, Rewound(Finish(s, status)), e)
  {
    hide Finish, Tells, Overwrite, Closed, BackIn;
    assert (p.exited + [Exit(FreshPid(p), status)])[..|p.exited|] == p.exited;
  }

  lemma EndStep(s: State, e: Ending)
    requires !e.ForksAt? && s.stack != [] && s.execPid == 0
    ensures Step(s, EventOf(e))
            == if e.ExecsAs? then Rewound(Finish(s.(execPid := e.kernelPid), 0))
               else Rewound(Finish(s, EventOf(e).status))
  {
    hide Finish;
  }

  lemma ExecTells(e: Ending)
    requires e.ExecsAs? && e.kernelPid == 0
    ensures Tells(0, e)
  {
  }

  lemma EndTells(e: Ending)
    requires !e.ForksAt? && !e.ExecsAs?
    ensures EventOf(e).Ends? && Tells(EventOf(e).status, e)
  {
    if e.ExitsWith? {
      StatusTells(e.code);
    } else if e.ReturnsWith? {
      StatusTells(e.ret);
    }
  }

  /** The end of a child and the tables it gives back. */
  lemma ChildEnds(p: State, s: State, body: seq<Event>, e: Ending)
    requires !e.ForksAt? && StaysAbove(body, |p.stack| + 1, |p.stack| + 1) && Depth(body) == 0
    requires StaysAbove(body, |p.stack| + 1, 0) && s == Run(Rewound(Begin(p)), body) && s.stack != [] && s.execPid == 0
    ensures Recounts(p, Step(s, EventOf(e)), e)
  {
    hide Run, Begin, Rewound, Finish, GivenBack, Step, Tells, EventOf, Recounts, StaysAbove, Depth;
    EndStep(s, e);
    if e.ExecsAs? {
      ChildGivesBack(p, body, e.kernelPid, 0);
      if e.kernelPid == 0 {
        ExecTells(e);
      }
      FinishRecounts(p, s.(execPid := e.kernelPid), 0, e);
    } else {
      EndTells(e);
      ChildGivesBack(p, body, 0, EventOf(e).status);
      assert s.(execPid := 0) == s;
      FinishRecounts(p, s, EventOf(e).status, e);
    }
  }

  lemma ChildWaited(p: State, t: State, e: Ending)
    requires Sound(p) && Recounts(p, t, e)
    ensures match Waitable(t, FreshPid(p))
            case Some(k) => t.exited[k].pid == FreshPid(p) && Tells(t.exited[k].status, e)
            case None => e.ExecsAs? && e.kernelPid != 0
  {
    hide Tells;
    FreshEntry(p);
    forall j | 0 <= j < |p.exited| ensures t.exited[j] == p.exited[j] {
      assert t.exited[j] == t.exited[..|p.exited|][j];
    }
  }

  /** A child begins as its parent's copy: the same memory and directory, the same description at
      every descriptor, empty tables, a new pid and the parent's as its own parent's; and the
      snapshot holds the stack pointer and the Asyncify data the fork was called with. */
  lemma ChildBegins(s: State, sp: int, data: int, fd: nat)
    ensures var c := Step(s, EventOf(ForksAt(sp, data)));
            && c.mem == s.mem && c.cwd == s.cwd && At(c.streams, fd) == At(s.streams, fd)
            && c.exited == [] && c.aliases == map[] && c.pid == FreshPid(s) && c.ppid == s.pid && c.sp == sp
            && |c.stack| == |s.stack| + 1 && c.stack[|s.stack|].sp == sp && c.stack[|s.stack|].data == data
  {
    DupTableAgrees(s.streams, fd);
  }

  /** The events of the turns taken so far. */
  function Flatten(script: seq<Turn>): seq<Event> {
    if script == [] then []
    else Flatten(script[..|script| - 1]) + script[|script| - 1].actions + [EventOf(script[|script| - 1].ending)]
  }

  datatype Outcome =
    | Returned(ret: int)   // main returned, in the process that was there first
    | Exited(code: int)    // that process exited
    | Threw                // or crashed
    | ScriptOver

  // ----- Lemmas about runs -----

  lemma StepDepth(s: State, e: Event)
    requires Over(e) ==> s.stack != []
    ensures |Step(s, e).stack| == if e.Forks? then |s.stack| + 1 else if Over(e) then |s.stack| - 1 else |s.stack|
  {
  }

  lemma {:induction false} RunAppend(s: State, a: seq<Event>, b: seq<Event>)
    requires StaysAbove(a, |s.stack|, 0)
    requires StaysAbove(b, |Run(s, a).stack|, 0)
    ensures StaysAbove(a + b, |s.stack|, 0) && Run(s, a + b) == Run(Run(s, a), b)
    decreases |a|
  {
    if a == [] {
      assert a + b == b;
    } else {
      assert (a + b)[1..] == a[1..] + b;
      StepDepth(s, a[0]);
      hide Step;
      RunAppend(Step(s, a[0]), a[1..], b);
    }
  }

  lemma {:induction false} QuietStays(s: State, actions: seq<Event>)
    requires Quiet(actions)
    ensures StaysAbove(actions, |s.stack|, 0) && Run(s, actions).stack == s.stack
    decreases |actions|
  {
    if actions != [] {
      QuietStays(Step(s, actions[0]), actions[1..]);
    }
  }

  lemma FlattenMore(script: seq<Turn>, k: nat)
    requires k < |script|
    ensures Flatten(script[..k + 1]) == Flatten(script[..k]) + script[k].actions + [EventOf(script[k].ending)]
  {
    assert script[..k + 1][..k] == script[..k];
  }

  // ----- Tables -----

  lemma {:induction false} DupTablePadded(t: Table)
    ensures |DupTable(t)| <= |t| && t == DupTable(t) + Holes(|t| - |DupTable(t)|)
    decreases |t|
  {
    if t != [] && t[|t| - 1].None? {
      DupTablePadded(t[..|t| - 1]);
      var n := |t| - 1 - |DupTable(t[..|t| - 1])|;
      assert Holes(n + 1) == Holes(n) + [None];
      assert t == t[..|t| - 1] + [None];
    }
  }

  lemma DupTableMore(t: Table, fd: nat)
    requires fd < |t|
    ensures DupTable(t[..fd + 1]) == if t[fd].None? then DupTable(t[..fd]) else Put(DupTable(t[..fd]), fd, t[fd])
  {
    var u := t[..fd + 1];
    assert u[..|u| - 1] == t[..fd];
    if t[fd].Some? {
      DupTablePadded(t[..fd]);
      assert u == t[..fd] + [t[fd]];
    }
  }

  lemma WaitKeeps(s: State, which: int)
    requires Sound(s) && RefsMatch(s)
    ensures Sound(Wait(s, which)) && RefsMatch(Wait(s, which))
  {
    hide Sound, RefsMatch, Wait;
    StepSound(s, Waits(which));
    StepMatches(s, Waits(which));
  }

  lemma WaitTakes(s: State, which: int)
    ensures Waitable(s, which).None? ==> Wait(s, which) == s
    ensures Waitable(s, which).Some? ==>
              var k := Waitable(s, which).value;
              var e := s.exited[k];
              Wait(s, which) == s.(exited := s.exited[..k] + s.exited[k + 1..],
                                   reaped := s.reaped + {Report(s.pid, e.pid, e.status)})
  {
  }

  // ----- The end of a child, part by part -----

  function Reopened(s: State, snap: Snapshot): State
    requires s.stack != []
  {
    s.(stack := s.stack[..|s.stack| - 1], refs := Closed(s.refs, s.streams), streams := snap.streams,
       cwd := BackIn(snap.cwd, s.cwd, s.dirs))
  }

  function Recorded(s: State, snap: Snapshot, status: int): State {
    if s.execPid != 0 then
      s.(exited := snap.exited, aliases := snap.aliases[snap.childPid := s.execPid], execPid := 0)
    else
      s.(exited := snap.exited + [Exit(snap.childPid, status)], aliases := snap.aliases,
         finished := s.finished + {Report(snap.pid, snap.childPid, status)})
  }

  function Restored(s: State, snap: Snapshot): State {
    s.(pid := snap.pid, ppid := snap.ppid, mem := Overwrite(s.mem, snap.mem), data := snap.data, sp := snap.sp)
  }

  lemma FinishParts(s: State, status: int)
    requires s.stack != []
    ensures var snap := s.stack[|s.stack| - 1];
            Finish(s, status) == Restored(Recorded(Reopened(s, snap), snap, status), snap)
  {
    hide Closed, BackIn, Overwrite;
  }

  class SliccFork {
    var mem: seq<byte>
    var forkSp: int
    var currData: int
    var pid: nat
    var ppid: nat
    var streams: Table
    var cwd: nat
    var sliccExited: seq<Exit>
    var sliccAliases: map<nat, nat>
    var stack: seq<Snapshot>
    var sliccNextPid: nat
    var execPid: nat
    var refs: map<nat, nat>
    var dirs: set<nat>
    ghost var given: seq<nat>
    ghost var finished: set<Report>
    ghost var reaped: set<Report>

    ghost function Abs(): State
      reads this
    {
      State(mem, forkSp, currData, pid, ppid, streams, cwd, sliccExited, sliccAliases, stack, sliccNextPid, execPid,
            refs, dirs, given, finished, reaped)
    }

    ghost predicate Valid()
      reads this
    {
      Sound(Abs()) && RefsMatch(Abs())
    }

    constructor (mem: seq<byte>, streams: Table, refs: map<nat, nat>, cwd: nat, dirs: set<nat>)
      requires forall d :: Ref(refs, d) == Count(streams, d)
      ensures Valid() && Abs() == Start(mem, streams, refs, cwd, dirs)
    {
      this.mem, this.streams, this.refs, this.cwd, this.dirs := mem, streams, refs, cwd, dirs;
      forkSp, currData, pid, ppid := 0, 0, 100, 1;
      sliccExited, sliccAliases, stack := [], map[], [];
      sliccNextPid, execPid := 0, 0;
      given, finished, reaped := [], {}, {};
      new;
      StartSound(mem, streams, refs, cwd, dirs);
    }

    method NextPid() returns (child: nat)
      modifies this`sliccNextPid, this`given
      ensures child == FreshPid(old(Abs()))
      ensures Abs() == old(Abs()).(nextPid := child, given := old(given) + [child])
    {
      sliccNextPid := (if sliccNextPid == 0 then 1000 else sliccNextPid) + 1;
      given := given + [sliccNextPid];
      return sliccNextPid;
    }

    /** `dupStreams`: clones every open descriptor. */
    method DupStreams(table: Table) returns (child: Table)
      modifies this`refs
      ensures child == DupTable(table) && refs == Duplicated(old(refs), table)
    {
      child := [];
      var fd := 0;
      ghost var rest := table;
      assert table[..0] == [];
      while fd < |table|
        invariant 0 <= fd <= |table| && rest == table[fd..]
        invariant child == DupTable(table[..fd])
        invariant Duplicated(refs, rest) == Duplicated(old(refs), table)
      {
        DupTableMore(table, fd);
        if table[fd].Some? {
          var d := table[fd].value;
          child := Put(child, fd, Some(d));
          refs := refs[d := Ref(refs, d) + 1];
        }
        rest := rest[1..];
        fd := fd + 1;
      }
      assert table[..fd] == table;
    }

    /** Closes every open descriptor of the child that is done. */
    method CloseAll()
      modifies this`refs
      ensures refs == Closed(old(refs), streams)
    {
      var fd := 0;
      ghost var rest := streams;
      while fd < |streams|
        invariant 0 <= fd <= |streams| && rest == streams[fd..]
        invariant Closed(refs, rest) == Closed(old(refs), streams)
      {
        if streams[fd].Some? {
          var d := streams[fd].value;
          refs := refs[d := if Ref(refs, d) == 0 then 0 else Ref(refs, d) - 1];
        }
        rest := rest[1..];
        fd := fd + 1;
      }
    }

    /** `set` on a JavaScript Map: an existing key keeps its place. */
    static function MapSet(t: seq<Exit>, pid: nat, status: int): seq<Exit> {
      match Find(t, pid)
      case None => t + [Exit(pid, status)]
      case Some(k) => t[k := Exit(pid, status)]
    }

    /** `begin`. */
    method BeginChild()
      modifies this
      ensures Abs() == Begin(old(Abs()))
    {
      hide DupTable, Duplicated;
      var snapStreams := streams;
      var parentPid := pid;
      var parentPpid := ppid;
      var exited, aliases := sliccExited, sliccAliases;
      var child := NextPid();
      stack := stack + [Snapshot(mem, forkSp, currData, parentPid, parentPpid, child, snapStreams, cwd,
                                 exited, aliases)];
      streams := DupStreams(snapStreams);
      sliccExited := [];
      sliccAliases := map[];
      ppid := parentPid;
      pid := child;
    }

    /** `finish`. The child's pid is new in its parent's wait table. */
    method FinishChild(status: int) returns (child: nat)
      requires stack != [] && Find(stack[|stack| - 1].exited, stack[|stack| - 1].childPid).None?
      modifies this
      ensures Abs() == Finish(old(Abs()), status)
      ensures child == old(stack)[|old(stack)| - 1].childPid
    {
      hide Finish, Reopened, Recorded, Restored;
      FinishParts(Abs(), status);
      var snap := stack[|stack| - 1];
      Reopen(snap);
      Record(snap, status);
      Restore(snap);
      return snap.childPid;
    }

    /** The child's descriptors are closed, the parent's are back. */
    method Reopen(snap: Snapshot)
      requires stack != []
      modifies this`stack, this`streams, this`refs, this`cwd
      ensures Abs() == Reopened(old(Abs()), snap)
    {
      stack := stack[..|stack| - 1];
      CloseAll();
      streams := snap.streams;
      ChangeDir(snap.cwd);
    }

    /** `chdir`. */
    method ChangeDir(dir: nat)
      modifies this`cwd
      ensures cwd == BackIn(dir, old(cwd), dirs)
    {
      if dir in dirs {
        cwd := dir;
      }
    }

    /** The parent's wait table, with the child that is done; one that exec'd stands for the
        program it became. */
    method Record(snap: Snapshot, status: int)
      requires Find(snap.exited, snap.childPid).None?
      modifies this`sliccExited, this`sliccAliases, this`execPid, this`finished
      ensures Abs() == Recorded(old(Abs()), snap, status)
    {
      sliccExited := snap.exited;
      sliccAliases := snap.aliases;
      if execPid != 0 {
        sliccAliases := sliccAliases[snap.childPid := execPid];
      } else {
        sliccExited := MapSet(sliccExited, snap.childPid, status);
        finished := finished + {Report(snap.pid, snap.childPid, status)};
      }
      execPid := 0;
    }

    /** Identity, memory and registers of the parent. */
    method Restore(snap: Snapshot)
      modifies this`pid, this`ppid, this`mem, this`currData, this`forkSp
      ensures Abs() == Restored(old(Abs()), snap)
    {
      pid := snap.pid;
      ppid := snap.ppid;
      mem := Overwrite(mem, snap.mem);
      currData := snap.data;
      forkSp := snap.sp;
    }

    /** `slicc_spawn_capture_js` without a kernel, for a child that ended with this status. */
    method SpawnChild(status: int) returns (child: nat)
      requires Valid()
      modifies this
      ensures Valid() && Abs() == Spawn(old(Abs()), status) && child == FreshPid(old(Abs()))
    {
      SpawnInOrder(Abs(), status);
      SpawnRight(Abs(), status);
      FreshEntry(Abs());
      child := NextPid();
      sliccExited := MapSet(sliccExited, child, status);
      finished := finished + {Report(pid, child, status)};
    }

    /** `slicc_wait_js` without a kernel: the reaped child, or None for ECHILD. */
    method WaitChild(which: int) returns (r: Option<Exit>)
      requires Valid()
      modifies this`sliccExited, this`reaped
      ensures Valid() && Abs() == Wait(old(Abs()), which)
      ensures r == match Waitable(old(Abs()), which) case None => None case Some(k) => Some(old(sliccExited)[k])
    {
      hide Sound, RefsMatch, Wait;
      WaitKeeps(Abs(), which);
      WaitTakes(Abs(), which);
      if sliccExited == [] {
        return None;
      }
      var at := if which > 0 then Find(sliccExited, which) else Some(0);
      if at.None? {
        return None;
      }
      var e := sliccExited[at.value];
      Delete(at.value, e);
      return Some(e);
    }

    /** `delete` on the wait table. */
    method Delete(k: nat, e: Exit)
      requires k < |sliccExited|
      modifies this`sliccExited, this`reaped
      ensures Abs() == old(Abs()).(exited := old(sliccExited)[..k] + old(sliccExited)[k + 1..],
                                   reaped := old(reaped) + {Report(pid, e.pid, e.status)})
    {
      sliccExited := sliccExited[..k] + sliccExited[k + 1..];
      reaped := reaped + {Report(pid, e.pid, e.status)};
    }

    /** What the running process does itself in its turn. */
    method Act(actions: seq<Event>)
      requires Valid() && Quiet(actions)
      modifies this
      ensures StaysAbove(actions, |old(stack)|, 0)
      ensures Valid() && Abs() == Run(old(Abs()), actions) && stack == old(stack)
    {
      QuietStays(Abs(), actions);
      var k := 0;
      ghost var rest := actions;
      while k < |actions|
        invariant 0 <= k <= |actions| && rest == actions[k..]
        invariant Valid() && stack == old(stack)
        invariant StaysAbove(rest, |stack|, 0) && Run(Abs(), rest) == Run(old(Abs()), actions)
      {
        DoAction(actions[k]);
        rest := rest[1..];
        k := k + 1;
      }
    }

    method DoAction(e: Event)
      requires Valid() && !e.Forks? && !Over(e)
      modifies this
      ensures Valid() && Abs() == Step(old(Abs()), e) && stack == old(stack)
    {
      hide Sound, RefsMatch;
      StepSound(Abs(), e);
      StepMatches(Abs(), e);
      match e {
        case Open(fd, d) =>
          if At(streams, fd).None? {
            streams := Put(streams, fd, Some(d));
            refs := refs[d := Ref(refs, d) + 1];
          }
        case Close(fd) =>
          if At(streams, fd).Some? {
            refs := Closed(refs, [At(streams, fd)]);
            streams := Put(streams, fd, None);
          }
        case Store(m) =>
          if |m| >= |mem| {
            mem := m;
          }
        case ChangesDir(dir) => ChangeDir(dir);
        case Directories(ds) => dirs := ds;
        case Spawned(status) =>
          var child := SpawnChild(status);
        case Waits(which) =>
          var r := WaitChild(which);
      }
    }

    /** Ends a turn in a process that has a parent, or forks: the step the event names. */
    method Switch(e: Event)
      requires Valid() && (e.Forks? || (Over(e) && stack != []))
      modifies this
      ensures Valid() && Abs() == Step(old(Abs()), e)
    {
      hide Sound, RefsMatch, Begin, Finish, Rewound;
      StepSound(Abs(), e);
      StepMatches(Abs(), e);
      if stack != [] {
        NoEntry(Abs());
      }
      match e {
        case Forks(sp, data) =>
          forkSp, currData := sp, data;
          BeginChild();
        case Ends(status) =>
          var child := FinishChild(status);
        case Execs(kernelPid) =>
          execPid := kernelPid;  // `slicc_exec_detach`, and then `_exit(0)`
          var child := FinishChild(0);
      }
      Rewind();
    }

    /** The rewind consumes the Asyncify data. */
    method Rewind()
      modifies this`currData
      ensures Abs() == Rewound(old(Abs()))
    {
      currData := 0;
    }

    /** The events so far have led from s0 to here. */
    ghost predicate Ran(s0: State, es: seq<Event>)
      reads this
    {
      Valid() && StaysAbove(es, |s0.stack|, 0) && Abs() == Run(s0, es)
    }

    /** One turn: the process acts, then control passes on, or leaves with the first process. */
    method TakeTurn(turn: Turn, ghost s0: State, ghost es: seq<Event>) returns (left: Option<Outcome>)
      requires Ran(s0, es) && Quiet(turn.actions)
      modifies this
      ensures left.Some? ==> stack == [] && Leaves(turn.ending, left.value) && Ran(s0, es + turn.actions)
      ensures left.None? ==> Ran(s0, es + turn.actions + [EventOf(turn.ending)])
    {
      ActFrom(turn.actions, s0, es);
      if stack == [] {
        match turn.ending {
          case ReturnsWith(ret) => return Some(Returned(ret));
          case ExitsWith(code) => return Some(Exited(code));
          case ExecsAs(_, code) => return Some(Exited(code));
          case Crashes => return Some(Threw);
          case ForksAt(_, _) =>
        }
      }
      SwitchFrom(EventOf(turn.ending), s0, es + turn.actions);
      return None;
    }

    method ActFrom(actions: seq<Event>, ghost s0: State, ghost es: seq<Event>)
      requires Ran(s0, es) && Quiet(actions)
      modifies this
      ensures Ran(s0, es + actions)
    {
      Act(actions);
      RunAppend(s0, es, actions);
    }

    method SwitchFrom(e: Event, ghost s0: State, ghost es: seq<Event>)
      requires Ran(s0, es) && (e.Forks? || (Over(e) && stack != []))
      modifies this
      ensures Ran(s0, es + [e])
    {
      ghost var t := Abs();
      assert [e][1..] == [];
      assert StaysAbove([e], |t.stack|, 0);
      Switch(e);
      RunAppend(s0, es, [e]);
    }

    /** `settle` and the `resume` inside it: turn after turn, a fork starts a child, and a child
        that returns, exits or crashes hands control back to its parent. Control leaves only
        with the process that was there first. */
    method Settle(script: seq<Turn>) returns (outcome: Outcome, n: nat)
      requires Valid() && AllQuiet(script)
      modifies this
      ensures Valid() && n <= |script|
      ensures outcome.ScriptOver? ==> n == |script|
      ensures !outcome.ScriptOver? ==> n < |script| && stack == [] && Leaves(script[n].ending, outcome)
      ensures var es := Flatten(script[..n]) + (if n < |script| then script[n].actions else []);
              StaysAbove(es, |old(stack)|, 0) && Abs() == Run(old(Abs()), es)
    {
      n := 0;
      ghost var s0, es: seq<Event> := Abs(), [];
      assert Flatten(script[..0]) == es;
      while n < |script|
        invariant n <= |script| && es == Flatten(script[..n]) && Ran(s0, es)
      {
        var left := TakeTurn(script[n], s0, es);
        if left.Some? {
          return left.value, n;
        }
        FlattenMore(script, n);
        es := es + script[n].actions + [EventOf(script[n].ending)];
        n := n + 1;
      }
      outcome := ScriptOver;
      assert es + [] == es;
    }
  }

  /** How the first process may end the whole program. */
  predicate Leaves(e: Ending, o: Outcome) {
    match e
    case ReturnsWith(ret) => o == Returned(ret)
    case ExitsWith(code) => o == Exited(code)
    case ExecsAs(_, code) => o == Exited(code)
    case Crashes => o == Threw
    case ForksAt(_, _) => false
  }
}
