/**
 In-process fork() as shims/slicc/slicc-fork.js emulates it, with the wait table of
 shims/slicc/slicc_spawn.c: the child runs in the parent's place on a copy of its descriptor
 table, and when it ends a snapshot gives the parent everything back.
 */
module ForkModel {
  import opened Bytes

  // ----- Descriptor tables -----

  /** A process's descriptor table: which open description each descriptor stands for. */
  type Table = seq<Option<nat>>

  function At(t: Table, fd: nat): Option<nat> {
    if fd < |t| then t[fd] else None
  }

  function Holes(n: nat): Table {
    seq(n, _ => None)
  }

  /** `t[fd] = d` on a JavaScript array, which grows as needed. */
  function Put(t: Table, fd: nat, d: Option<nat>): (r: Table)
    ensures At(r, fd) == d
  {
    if fd < |t| then t[fd := d] else t + Holes(fd - |t|) + [d]
  }

  /** How many descriptors of the table stand for description d. */
  function Count(t: Table, d: nat): nat {
    if t == [] then 0 else (if t[0] == Some(d) then 1 else 0) + Count(t[1..], d)
  }

  /** The reference count of a description; one that was never opened has none. */
  function Ref(refs: map<nat, nat>, d: nat): nat {
    if d in refs then refs[d] else 0
  }

  lemma {:induction false} CountAppend(a: Table, b: Table, d: nat)
    ensures Count(a + b, d) == Count(a, d) + Count(b, d)
  {
    if a == [] {
      assert a + b == b;
    } else {
      assert (a + b)[1..] == a[1..] + b;
      CountAppend(a[1..], b, d);
    }
  }

  lemma {:induction false} CountHoles(n: nat, d: nat)
    ensures Count(Holes(n), d) == 0
  {
    if n > 0 {
      assert Holes(n)[1..] == Holes(n - 1);
      CountHoles(n - 1, d);
    }
  }

  lemma CountOne(x: Option<nat>, d: nat)
    ensures Count([x], d) == if x == Some(d) then 1 else 0
  {
  }

  lemma CountPut(t: Table, fd: nat, x: Option<nat>, d: nat)
    ensures Count(Put(t, fd, x), d) + (if At(t, fd) == Some(d) then 1 else 0)
            == Count(t, d) + (if x == Some(d) then 1 else 0)
  {
    if fd < |t| {
      assert t == t[..fd] + [t[fd]] + t[fd + 1..];
      assert Put(t, fd, x) == t[..fd] + [x] + t[fd + 1..];
      CountAppend(t[..fd] + [t[fd]], t[fd + 1..], d);
      CountAppend(t[..fd] + [x], t[fd + 1..], d);
      CountAppend(t[..fd], [t[fd]], d);
      CountAppend(t[..fd], [x], d);
      CountOne(t[fd], d);
      CountOne(x, d);
    } else {
      CountAppend(t + Holes(fd - |t|), [x], d);
      CountAppend(t, Holes(fd - |t|), d);
      CountHoles(fd - |t|, d);
      CountOne(x, d);
    }
  }

  // ----- Processes -----

  /** An exited child in its parent's wait table, with its wait status. */
  datatype Exit = Exit(pid: nat, status: int)

  /** What a fork saves of the parent. */
  datatype Snapshot = Snapshot(
    mem: seq<byte>, sp: int, data: int, pid: nat, ppid: nat, childPid: nat,
    streams: Table, cwd: nat, exited: seq<Exit>, aliases: map<nat, nat>)

  /** That `child` of `parent` finished with `status`. */
  datatype Report = Report(parent: nat, child: nat, status: int)

  /** The running process, the stack of waiting parents, what all processes share; and, for
      the claims only, the pids given out and the children finished and reported so far. */
  datatype State = State(
    mem: seq<byte>, sp: int, data: int, pid: nat, ppid: nat,
    streams: Table, cwd: nat, exited: seq<Exit>, aliases: map<nat, nat>,
    stack: seq<Snapshot>,
    nextPid: nat,        // 0: not set yet
    execPid: nat,        // 0: the child did not exec
    refs: map<nat, nat>,
    dirs: set<nat>,      // the directories there are
    given: seq<nat>, finished: set<Report>, reaped: set<Report>)

  function Start(mem: seq<byte>, streams: Table, refs: map<nat, nat>, cwd: nat, dirs: set<nat>): State {
    State(mem, 0, 0, 100, 1, streams, cwd, [], map[], [], 0, 0, refs, dirs, [], {}, {})
  }

  /** `nextPid`, and the counter in `slicc_spawn_capture_js`. */
  function FreshPid(s: State): nat {
    (if s.nextPid == 0 then 1000 else s.nextPid) + 1
  }

  /** The reference counts after every open descriptor of a table was duplicated, or closed. */
  function Duplicated(refs: map<nat, nat>, t: Table): map<nat, nat>
    decreases |t|
  {
    if t == [] then refs
    else match t[0]
      case None => Duplicated(refs, t[1..])
      case Some(d) => Duplicated(refs[d := Ref(refs, d) + 1], t[1..])
  }

  function Closed(refs: map<nat, nat>, t: Table): map<nat, nat>
    decreases |t|
  {
    if t == [] then refs
    else match t[0]
      case None => Closed(refs, t[1..])
      case Some(d) => Closed(refs[d := if Ref(refs, d) == 0 then 0 else Ref(refs, d) - 1], t[1..])
  }

  /** `dupStreams`: the same descriptions at the same descriptors; holes at the end go. */
  function DupTable(t: Table): Table {
    if t == [] then []
    else if t[|t| - 1].None? then DupTable(t[..|t| - 1])
    else t
  }

  /** `begin`: snapshot the parent at its fork() and go on as the child. */
  function Begin(s: State): State {
    var child := FreshPid(s);
    s.(stack := s.stack + [Snapshot(s.mem, s.sp, s.data, s.pid, s.ppid, child, s.streams, s.cwd, s.exited, s.aliases)],
       streams := DupTable(s.streams), refs := Duplicated(s.refs, s.streams),
       exited := [], aliases := map[], ppid := s.pid, pid := child,
       nextPid := child, given := s.given + [child])
  }

  /** `HEAPU8.set(mem)`: the snapshot goes over the start of a memory that may have grown. */
  function Overwrite(mem: seq<byte>, saved: seq<byte>): seq<byte> {
    if |mem| <= |saved| then saved else saved + mem[|saved|..]
  }

  /** `chdir` back, which fails silently where the directory is gone. */
  function BackIn(saved: nat, cwd: nat, dirs: set<nat>): nat {
    if saved in dirs then saved else cwd
  }

  /** `finish`: the innermost child is done; its parent is back, with one entry more. */
  function Finish(s: State, status: int): State
    requires s.stack != []
  {
    var snap := s.stack[|s.stack| - 1];
    s.(stack := s.stack[..|s.stack| - 1],
       refs := Closed(s.refs, s.streams), streams := snap.streams, cwd := BackIn(snap.cwd, s.cwd, s.dirs),
       exited := if s.execPid == 0 then snap.exited + [Exit(snap.childPid, status)] else snap.exited,
       aliases := if s.execPid == 0 then snap.aliases else snap.aliases[snap.childPid := s.execPid],
       execPid := 0, pid := snap.pid, ppid := snap.ppid, mem := Overwrite(s.mem, snap.mem),
       data := snap.data, sp := snap.sp,
       finished := if s.execPid == 0 then s.finished + {Report(snap.pid, snap.childPid, status)} else s.finished)
  }

  /** `slicc_spawn_capture_js` without a kernel: the child has already run. */
  function Spawn(s: State, status: int): State {
    var child := FreshPid(s);
    s.(nextPid := child, given := s.given + [child], exited := s.exited + [Exit(child, status)],
       finished := s.finished + {Report(s.pid, child, status)})
  }

  /** The place of a pid in a wait table. */
  function Find(t: seq<Exit>, pid: nat): (r: Option<nat>)
    ensures r.Some? ==> r.value < |t| && t[r.value].pid == pid
    ensures r.None? ==> forall k :: 0 <= k < |t| ==> t[k].pid != pid
  {
    if t == [] then None
    else if t[0].pid == pid then Some(0)
    else match Find(t[1..], pid)
      case None => None
      case Some(k) => Some(k + 1)
  }

  /** Which entry `slicc_wait_js` takes without a kernel: the child asked for, or else the
      one that finished first; None is ECHILD. */
  function Waitable(s: State, pid: int): Option<nat> {
    if s.exited == [] then None else if pid > 0 then Find(s.exited, pid) else Some(0)
  }

  function Wait(s: State, pid: int): State {
    match Waitable(s, pid)
    case None => s
    case Some(k) =>
      var e := s.exited[k];
      s.(exited := s.exited[..k] + s.exited[k + 1..], reaped := s.reaped + {Report(s.pid, e.pid, e.status)})
  }

  // ----- Runs -----

  /** What a process does until it forks or ends, and the forks and ends themselves. */
  datatype Event =
    | Open(fd: nat, d: nat)       // open() or dup(): a free descriptor, one reference more
    | Close(fd: nat)
    | Store(mem: seq<byte>)       // memory is written, and may grow
    | ChangesDir(dir: nat)
    | Directories(dirs: set<nat>) // directories are made and removed
    | Spawned(status: int)
    | Waits(pid: int)
    | Forks(sp: int, data: int)
    | Ends(status: int)           // exit, return from main, or a crash
    | Execs(kernelPid: nat)       // exec in a child under a kernel: another program goes on in its place

  /** The running process is done. */
  predicate Over(e: Event) {
    e.Ends? || e.Execs?
  }

  /** A rewind consumes the Asyncify data. */
  function Rewound(s: State): State {
    s.(data := 0)
  }

  function Step(s: State, e: Event): State
    requires Over(e) ==> s.stack != []
  {
    match e
    case Open(fd, d) =>
      if At(s.streams, fd).Some? then s
      else s.(streams := Put(s.streams, fd, Some(d)), refs := s.refs[d := Ref(s.refs, d) + 1])
    case Close(fd) =>
      (match At(s.streams, fd)
       case None => s
       case Some(d) => s.(streams := Put(s.streams, fd, None), refs := Closed(s.refs, [Some(d)])))
    case Store(mem) => if |mem| < |s.mem| then s else s.(mem := mem)
    case ChangesDir(dir) => if dir in s.dirs then s.(cwd := dir) else s
    case Directories(dirs) => s.(dirs := dirs)
    case Spawned(status) => Spawn(s, status)
    case Waits(pid) => Wait(s, pid)
    case Forks(sp, data) => Rewound(Begin(s.(sp := sp, data := data)))
    case Ends(status) => Rewound(Finish(s, status))
    case Execs(kernelPid) => Rewound(Finish(s.(execPid := kernelPid), 0))
  }

  /** How the depth of the stack changes over a run. */
  function Depth(es: seq<Event>): int {
    if es == [] then 0
    else (if es[0].Forks? then 1 else if Over(es[0]) then -1 else 0) + Depth(es[1..])
  }

  /** A run that never ends a process that was there before it: it stays at least `floor`
      snapshots deep when it starts `depth` deep. */
  predicate StaysAbove(es: seq<Event>, depth: nat, floor: nat)
    decreases |es|
  {
    floor <= depth &&
    (es == [] || (
      var next: int := if es[0].Forks? then depth + 1 else if Over(es[0]) then depth - 1 else depth;
      next >= floor && StaysAbove(es[1..], next, floor)))
  }

  function Run(s: State, es: seq<Event>): State
    requires StaysAbove(es, |s.stack|, 0)
    decreases |es|
  {
    if es == [] then s else Run(Step(s, es[0]), es[1..])
  }

  // ----- The stack of parents -----

  /** While no process that was there before ends, the snapshots below are untouched. */
  lemma {:induction false} StackKept(s: State, es: seq<Event>, floor: nat)
    requires StaysAbove(es, |s.stack|, floor)
    ensures StaysAbove(es, |s.stack|, 0)
    ensures var t := Run(s, es);
            && floor <= |t.stack| && |t.stack| == |s.stack| + Depth(es)
            && t.stack[..floor] == s.stack[..floor]
    decreases |es|
  {
    if es != [] {
      StackKept(Step(s, es[0]), es[1..], floor);
      assert Step(s, es[0]).stack[..floor] == s.stack[..floor];
    }
  }

  /** What a parent gets back when its child ends: its own snapshot, one entry more in its
      wait table, and what all processes share as the child left it. */
  function GivenBack(p: State, e: State, status: int): State {
    e.(mem := Overwrite(e.mem, p.mem), sp := p.sp, data := p.data, pid := p.pid, ppid := p.ppid,
       streams := p.streams, cwd := BackIn(p.cwd, e.cwd, e.dirs), stack := p.stack,
       exited := if e.execPid == 0 then p.exited + [Exit(FreshPid(p), status)] else p.exited,
       aliases := if e.execPid == 0 then p.aliases else p.aliases[FreshPid(p) := e.execPid],
       execPid := 0,
       refs := Closed(e.refs, e.streams),
       finished := if e.execPid == 0 then e.finished + {Report(p.pid, FreshPid(p), status)} else e.finished)
  }

  /** Whatever a child does, nested forks included, its end gives its parent back its
      snapshot: registers, identity, descriptors, wait table, the memory it had, and its working
      directory if that is still there. The child
      exec'd into a kernel process `exec`, or into none if that is 0. */
  lemma ChildGivesBack(p: State, body: seq<Event>, exec: nat, status: int)
    requires StaysAbove(body, |p.stack| + 1, |p.stack| + 1) && Depth(body) == 0
    ensures StaysAbove(body, |p.stack| + 1, 0)
    ensures var e := Run(Rewound(Begin(p)), body).(execPid := exec);
            && e.stack != [] && Finish(e, status) == GivenBack(p, e, status)
            && Finish(e, status).mem[..|p.mem|] == p.mem
  {
    var c := Rewound(Begin(p));
    StackKept(c, body, |c.stack|);
    var e := Run(c, body).(execPid := exec);
    assert e.stack[..|c.stack|] == e.stack && c.stack[..|c.stack|] == c.stack;
    assert e.stack[..|e.stack| - 1] == p.stack;
  }

  /** So a parent is in its own directory again exactly if that is still there, or the child
      ended in it. */
  lemma DirectoryBack(p: State, body: seq<Event>, exec: nat, status: int)
    requires StaysAbove(body, |p.stack| + 1, |p.stack| + 1) && Depth(body) == 0
    ensures StaysAbove(body, |p.stack| + 1, 0)
    ensures var e := Run(Rewound(Begin(p)), body).(execPid := exec);
            && e.stack != []
            && (Finish(e, status).cwd == p.cwd <==> p.cwd in e.dirs || e.cwd == p.cwd)
  {
    ChildGivesBack(p, body, exec, status);
  }

  /** A child that goes elsewhere and removes its parent's directory takes its parent along. */
  lemma DirectoryLost(p: State, elsewhere: nat)
    requires p.cwd != elsewhere && elsewhere in p.dirs
    ensures var body := [ChangesDir(elsewhere), Directories(p.dirs - {p.cwd})];
            && StaysAbove(body, |p.stack| + 1, 0)
            && var e := Run(Rewound(Begin(p)), body);
               e.stack != [] && Finish(e, 0).cwd == elsewhere != p.cwd
  {
    var x, y := ChangesDir(elsewhere), Directories(p.dirs - {p.cwd});
    assert [x, y][1..] == [y] && [y][1..] == [];
    var c := Rewound(Begin(p));
    assert Run(Step(Step(c, x), y), []) == Step(Step(c, x), y);
    assert StaysAbove([], |p.stack| + 1, 0) && StaysAbove([y], |p.stack| + 1, 0);
    assert Run(Step(c, x), [y]) == Step(Step(c, x), y);
    assert Run(c, [x, y]) == Run(Step(c, x), [y]);
    var n := |p.stack| + 1;
    assert StaysAbove([], n, n) && Depth([]) == 0;
    assert StaysAbove([y], n, n) && Depth([y]) == 0 + Depth([]);
    assert StaysAbove([x, y], n, n) && Depth([x, y]) == 0 + Depth([y]);
    DirectoryBack(p, [x, y], p.execPid, 0);
  }

  // ----- Reference counts -----

  /** The slots of all waiting parents that stand for description d. */
  function StackCount(stack: seq<Snapshot>, d: nat): nat {
    if stack == [] then 0 else StackCount(stack[..|stack| - 1], d) + Count(stack[|stack| - 1].streams, d)
  }

  function Slots(s: State, d: nat): nat {
    Count(s.streams, d) + StackCount(s.stack, d)
  }

  /** Every description's count is its number of slots over all the tables. */
  ghost predicate RefsMatch(s: State) {
    forall d :: Ref(s.refs, d) == Slots(s, d)
  }

  lemma {:induction false} DuplicatedCounts(refs: map<nat, nat>, t: Table, d: nat)
    ensures Ref(Duplicated(refs, t), d) == Ref(refs, d) + Count(t, d)
    decreases |t|
  {
    if t != [] {
      match t[0]
      case None => DuplicatedCounts(refs, t[1..], d);
      case Some(x) => DuplicatedCounts(refs[x := Ref(refs, x) + 1], t[1..], d);
    }
  }

  lemma {:induction false} ClosedCounts(refs: map<nat, nat>, t: Table, d: nat)
    requires forall x :: Count(t, x) <= Ref(refs, x)
    ensures Ref(Closed(refs, t), d) == Ref(refs, d) - Count(t, d)
    decreases |t|
  {
    if t != [] {
      match t[0]
      case None =>
        forall x ensures Count(t[1..], x) <= Ref(refs, x) {
          assert Count(t, x) == Count(t[1..], x);
        }
        ClosedCounts(refs, t[1..], d);
      case Some(y) =>
        assert Count(t, y) >= 1;
        var next := refs[y := Ref(refs, y) - 1];
        forall x ensures Count(t[1..], x) <= Ref(next, x) {
          assert Count(t, x) <= Ref(refs, x);
        }
        ClosedCounts(next, t[1..], d);
    }
  }

  lemma {:induction false} DupTableCounts(t: Table, d: nat)
    ensures Count(DupTable(t), d) == Count(t, d)
    decreases |t|
  {
    if t != [] && t[|t| - 1].None? {
      assert t == t[..|t| - 1] + [t[|t| - 1]];
      CountAppend(t[..|t| - 1], [t[|t| - 1]], d);
      DupTableCounts(t[..|t| - 1], d);
    }
  }

  /** The child sees the same description at every descriptor. */
  lemma {:induction false} DupTableAgrees(t: Table, fd: nat)
    ensures At(DupTable(t), fd) == At(t, fd)
    decreases |t|
  {
    if t != [] && t[|t| - 1].None? {
      DupTableAgrees(t[..|t| - 1], fd);
    }
  }

  lemma BeginMatches(s: State)
    requires RefsMatch(s)
    ensures RefsMatch(Begin(s))
  {
    var b := Begin(s);
    assert b.stack[..|b.stack| - 1] == s.stack;
    forall d ensures Ref(b.refs, d) == Slots(b, d) {
      DuplicatedCounts(s.refs, s.streams, d);
      DupTableCounts(s.streams, d);
    }
  }

  lemma FinishMatches(s: State, status: int)
    requires RefsMatch(s) && s.stack != []
    ensures RefsMatch(Finish(s, status))
  {
    var f := Finish(s, status);
    forall d ensures Ref(f.refs, d) == Slots(f, d) {
      forall x ensures Count(s.streams, x) <= Ref(s.refs, x) {
        assert Ref(s.refs, x) == Slots(s, x);
      }
      ClosedCounts(s.refs, s.streams, d);
      assert Ref(s.refs, d) == Slots(s, d);
    }
  }

  lemma DescriptorMatches(s: State, e: Event)
    requires RefsMatch(s) && (e.Open? || e.Close?)
    ensures RefsMatch(Step(s, e))
  {
    var t := Step(s, e);
    forall d ensures Ref(t.refs, d) == Slots(t, d) {
      assert Ref(s.refs, d) == Slots(s, d);
      match e
      case Open(fd, x) => CountPut(s.streams, fd, Some(x), d);
      case Close(fd) =>
        if At(s.streams, fd).Some? {
          var x := At(s.streams, fd).value;
          CountPut(s.streams, fd, None, d);
          assert Ref(s.refs, x) == Slots(s, x) >= 1 by { CountPut(s.streams, fd, None, x); }
          assert Closed(s.refs, [Some(x)]) == s.refs[x := Ref(s.refs, x) - 1];
        }
    }
  }

  lemma StepMatches(s: State, e: Event)
    requires RefsMatch(s) && (Over(e) ==> s.stack != [])
    ensures RefsMatch(Step(s, e))
  {
    match e
    case Open(_, _) => DescriptorMatches(s, e);
    case Close(_) => DescriptorMatches(s, e);
    case Store(_) =>
    case ChangesDir(_) =>
    case Directories(_) =>
    case Spawned(_) =>
    case Waits(_) =>
    case Forks(sp, data) => BeginMatches(s.(sp := sp, data := data));
    case Ends(status) => FinishMatches(s, status);
    case Execs(kernelPid) => FinishMatches(s.(execPid := kernelPid), 0);
  }

  /** Over any run of forks and descriptor calls, every description's reference count is its
      number of slots over the current table and those of all waiting parents. */
  lemma {:induction false} RunMatches(s: State, es: seq<Event>)
    requires RefsMatch(s) && StaysAbove(es, |s.stack|, 0)
    ensures RefsMatch(Run(s, es))
    decreases |es|
  {
    if es != [] {
      StepMatches(s, es[0]);
      RunMatches(Step(s, es[0]), es[1..]);
    }
  }

  /** So a child's whole life leaves every reference count as it was at the fork. */
  lemma ChildLeavesCounts(p: State, body: seq<Event>, exec: nat, status: int, d: nat)
    requires RefsMatch(p) && StaysAbove(body, |p.stack| + 1, |p.stack| + 1) && Depth(body) == 0
    ensures StaysAbove(body, |p.stack| + 1, 0)
    ensures var e := Run(Rewound(Begin(p)), body).(execPid := exec);
            e.stack != [] && Ref(Finish(e, status).refs, d) == Ref(p.refs, d)
  {
    ChildGivesBack(p, body, exec, status);
    BeginMatches(p);
    RunMatches(Rewound(Begin(p)), body);
    var e := Run(Rewound(Begin(p)), body).(execPid := exec);
    FinishMatches(e, status);
    assert Ref(Finish(e, status).refs, d) == Slots(Finish(e, status), d) == Slots(p, d) == Ref(p.refs, d);
  }
}
