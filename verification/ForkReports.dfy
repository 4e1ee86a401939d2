/**
 Over whole runs of forks, spawns and waits without a kernel: no pid is given out twice, and
 each finished child is reported at most once, only to its own parent, with its status.
 */
module ForkReports {
  import opened Bytes
  import opened ForkModel

  // ----- Pids -----

  /** Pids go up from 1001; the first process is 100. Each waiting parent's child is the next
      process of the stack, with a greater pid. */
  ghost predicate PidsInOrder(s: State) {
    && (s.nextPid == 0 || s.nextPid > 1000)
    && (forall i, j :: 0 <= i < j < |s.given| ==> s.given[i] < s.given[j])
    && (forall i :: 0 <= i < |s.given| ==> 1000 < s.given[i] <= s.nextPid)
    && (forall i :: 0 <= i < |s.stack| ==> Chained(s, i))
    && (s.pid == 100 || 1000 < s.pid <= s.nextPid)
  }

  /** The process above the i-th snapshot: the next one's, or the running one. */
  function Above(s: State, i: nat): nat
    requires i < |s.stack|
  {
    if i + 1 < |s.stack| then s.stack[i + 1].pid else s.pid
  }

  ghost predicate Chained(s: State, i: nat)
    requires i < |s.stack|
  {
    && s.stack[i].pid < s.stack[i].childPid == Above(s, i)
    && 1000 < s.stack[i].childPid <= s.nextPid
    && (s.stack[i].pid == 100 || 1000 < s.stack[i].pid <= s.nextPid)
  }

  lemma {:induction false} StackIncreases(s: State, i: nat, j: nat)
    requires PidsInOrder(s) && i < j < |s.stack|
    ensures s.stack[i].pid < s.stack[j].pid && s.stack[j].pid < s.pid
    decreases j - i, |s.stack| - j
  {
    assert Chained(s, i) && Chained(s, j);
    if i + 1 < j {
      StackIncreases(s, i, j - 1);
      assert Chained(s, j - 1);
    }
    if j + 1 < |s.stack| {
      StackIncreases(s, j, j + 1);
    }
  }

  lemma BelowRunning(s: State, i: nat)
    requires PidsInOrder(s) && i < |s.stack|
    ensures s.stack[i].pid < s.pid
  {
    assert Chained(s, i);
    if i + 1 < |s.stack| {
      StackIncreases(s, i, i + 1);
    }
  }

  lemma BeginInOrder(s: State)
    requires PidsInOrder(s)
    ensures PidsInOrder(Begin(s))
  {
    var b := Begin(s);
    forall i | 0 <= i < |b.stack| ensures Chained(b, i) {
      if i < |s.stack| {
        assert Chained(s, i);
      }
    }
  }

  lemma FinishInOrder(s: State, status: int)
    requires PidsInOrder(s) && s.stack != []
    ensures PidsInOrder(Finish(s, status))
  {
    var f := Finish(s, status);
    assert Chained(s, |s.stack| - 1);
    forall i | 0 <= i < |f.stack| ensures Chained(f, i) {
      assert Chained(s, i);
    }
  }

  lemma SameInOrder(s: State, t: State)
    requires PidsInOrder(s)
    requires t.pid == s.pid && t.stack == s.stack && t.nextPid == s.nextPid && t.given == s.given
    ensures PidsInOrder(t)
  {
    forall i | 0 <= i < |t.stack| ensures Chained(t, i) {
      assert Chained(s, i);
    }
  }

  lemma SpawnInOrder(s: State, status: int)
    requires PidsInOrder(s)
    ensures PidsInOrder(Spawn(s, status))
  {
    var t := Spawn(s, status);
    forall i | 0 <= i < |t.stack| ensures Chained(t, i) {
      assert Chained(s, i);
    }
  }

  lemma StepInOrder(s: State, e: Event)
    requires PidsInOrder(s) && (Over(e) ==> s.stack != [])
    ensures PidsInOrder(Step(s, e))
  {
    hide PidsInOrder;
    match e
    case Open(_, _) => SameInOrder(s, Step(s, e));
    case Close(_) => SameInOrder(s, Step(s, e));
    case Store(_) => SameInOrder(s, Step(s, e));
    case ChangesDir(_) => SameInOrder(s, Step(s, e));
    case Directories(_) => SameInOrder(s, Step(s, e));
    case Waits(_) => SameInOrder(s, Step(s, e));
    case Spawned(status) => SpawnInOrder(s, status);
    case Forks(sp, data) =>
      SameInOrder(s, s.(sp := sp, data := data));
      BeginInOrder(s.(sp := sp, data := data));
      SameInOrder(Begin(s.(sp := sp, data := data)), Step(s, e));
    case Ends(status) =>
      FinishInOrder(s, status);
      SameInOrder(Finish(s, status), Step(s, e));
    case Execs(kernelPid) =>
      SameInOrder(s, s.(execPid := kernelPid));
      FinishInOrder(s.(execPid := kernelPid), 0);
      SameInOrder(Finish(s.(execPid := kernelPid), 0), Step(s, e));
  }

  // ----- Reports -----

  /** A live process's wait table holds exactly its finished children not yet reported. */
  ghost predicate TableRight(pid: nat, t: seq<Exit>, finished: set<Report>, reaped: set<Report>) {
    && (forall k :: 0 <= k < |t| ==> Report(pid, t[k].pid, t[k].status) in finished - reaped)
    && (forall r :: r in finished - reaped && r.parent == pid ==> Exit(r.child, r.status) in t)
    && (forall i, j :: 0 <= i < j < |t| ==> t[i].pid != t[j].pid)
  }

  ghost predicate ReportsRight(s: State) {
    && s.reaped <= s.finished && s.execPid == 0
    // a child finishes once, and its pid and its parent's were given out before
    && (forall r :: r in s.finished ==> 1000 < r.child <= s.nextPid && (r.parent == 100 || r.parent <= s.nextPid))
    && (forall r, q :: r in s.finished && q in s.finished && r.child == q.child ==> r == q)
    // the children that have not finished are those of the stack
    && (forall r, i :: r in s.finished && 0 <= i < |s.stack| ==> r.child != s.stack[i].childPid)
    && TableRight(s.pid, s.exited, s.finished, s.reaped)
    && (forall i :: 0 <= i < |s.stack| ==> TableRight(s.stack[i].pid, s.stack[i].exited, s.finished, s.reaped))
  }

  ghost predicate Sound(s: State) {
    PidsInOrder(s) && ReportsRight(s)
  }

  lemma StartSound(mem: seq<byte>, streams: Table, refs: map<nat, nat>, cwd: nat, dirs: set<nat>)
    ensures Sound(Start(mem, streams, refs, cwd, dirs))
  {
  }

  lemma BeginRight(s: State)
    requires Sound(s)
    ensures ReportsRight(Begin(s))
  {
    var b := Begin(s);
    forall i | 0 <= i < |b.stack|
      ensures TableRight(b.stack[i].pid, b.stack[i].exited, b.finished, b.reaped)
    {
      if i < |s.stack| {
        assert b.stack[i] == s.stack[i];
      }
    }
  }

  /** A new report for one parent leaves every other process's table right. */
  lemma OtherTable(pid: nat, t: seq<Exit>, finished: set<Report>, reaped: set<Report>, r: Report)
    requires TableRight(pid, t, finished, reaped) && r.parent != pid
    ensures TableRight(pid, t, finished + {r}, reaped)
  {
  }

  lemma OwnTable(pid: nat, t: seq<Exit>, finished: set<Report>, reaped: set<Report>, child: nat, status: int)
    requires TableRight(pid, t, finished, reaped) && reaped <= finished
    requires forall r :: r in finished ==> r.child != child
    ensures TableRight(pid, t + [Exit(child, status)], finished + {Report(pid, child, status)}, reaped)
  {
    var u := t + [Exit(child, status)];
    var f := finished + {Report(pid, child, status)};
    forall k | 0 <= k < |u| ensures Report(pid, u[k].pid, u[k].status) in f - reaped {
      if k == |t| {
        assert Report(pid, child, status) !in finished;
      }
    }
    forall r | r in f - reaped && r.parent == pid ensures Exit(r.child, r.status) in u {
      if r != Report(pid, child, status) {
        assert Exit(r.child, r.status) in t;
      } else {
        assert u[|t|] == Exit(child, status);
      }
    }
    forall i, j | 0 <= i < j < |u| ensures u[i].pid != u[j].pid {
      assert Report(pid, t[i].pid, t[i].status) in finished;
    }
  }

  lemma FinishTable(s: State, status: int, i: nat)
    requires Sound(s) && i < |s.stack| - 1
    ensures var f, frame := Finish(s, status), s.stack[i];
            TableRight(frame.pid, frame.exited, f.finished, f.reaped)
  {
    hide TableRight;
    var top := s.stack[|s.stack| - 1];
    StackIncreases(s, i, |s.stack| - 1);
    OtherTable(s.stack[i].pid, s.stack[i].exited, s.finished, s.reaped, Report(top.pid, top.childPid, status));
  }

  lemma FinishChild(s: State, status: int, q: Report, i: nat)
    requires Sound(s) && i < |s.stack| - 1 && q in Finish(s, status).finished
    ensures q.child != s.stack[i].childPid
  {
    assert Chained(s, i) && Chained(s, |s.stack| - 1);
    if i + 1 < |s.stack| - 1 {
      StackIncreases(s, i + 1, |s.stack| - 1);
    }
  }

  lemma FinishRight(s: State, status: int)
    requires Sound(s) && s.stack != []
    ensures ReportsRight(Finish(s, status))
  {
    var f := Finish(s, status);
    var top := s.stack[|s.stack| - 1];
    assert Chained(s, |s.stack| - 1);
    OwnTable(top.pid, top.exited, s.finished, s.reaped, top.childPid, status);
    assert f.stack == s.stack[..|s.stack| - 1];
    forall i | 0 <= i < |f.stack|
      ensures TableRight(f.stack[i].pid, f.stack[i].exited, f.finished, f.reaped)
    {
      FinishTable(s, status, i);
    }
    forall q, i | q in f.finished && 0 <= i < |f.stack| ensures q.child != f.stack[i].childPid {
      FinishChild(s, status, q, i);
    }
  }

  /** A child that another program replaces is not finished: its parent's table stays right. */
  lemma ExecRight(s: State, kernelPid: nat)
    requires Sound(s) && s.stack != []
    ensures ReportsRight(Step(s, Execs(kernelPid)))
  {
    if kernelPid == 0 {
      assert s.(execPid := 0) == s;
      FinishRight(s, 0);
      SameRight(Finish(s, 0), Step(s, Execs(0)));
    } else {
      var t := Step(s, Execs(kernelPid));
      assert Chained(s, |s.stack| - 1);
      assert t.stack == s.stack[..|s.stack| - 1];
    }
  }

  lemma SpawnRight(s: State, status: int)
    requires Sound(s)
    ensures ReportsRight(Spawn(s, status))
  {
    var t := Spawn(s, status);
    var child := FreshPid(s);
    var r := Report(s.pid, child, status);
    OwnTable(s.pid, s.exited, s.finished, s.reaped, child, status);
    forall i | 0 <= i < |t.stack|
      ensures TableRight(t.stack[i].pid, t.stack[i].exited, t.finished, t.reaped)
      ensures child != t.stack[i].childPid
    {
      BelowRunning(s, i);
      assert Chained(s, i);
      OtherTable(s.stack[i].pid, s.stack[i].exited, s.finished, s.reaped, r);
    }
  }

  lemma ReapOwn(pid: nat, t: seq<Exit>, finished: set<Report>, reaped: set<Report>, k: nat)
    requires TableRight(pid, t, finished, reaped) && k < |t|
    requires forall r, q :: r in finished && q in finished && r.child == q.child ==> r == q
    ensures TableRight(pid, t[..k] + t[k + 1..], finished, reaped + {Report(pid, t[k].pid, t[k].status)})
  {
    var u := t[..k] + t[k + 1..];
    var gone := Report(pid, t[k].pid, t[k].status);
    forall r | r in finished - (reaped + {gone}) && r.parent == pid ensures Exit(r.child, r.status) in u {
      var i :| 0 <= i < |t| && t[i] == Exit(r.child, r.status);
      assert i != k;
      assert if i < k then u[i] == t[i] else u[i - 1] == t[i];
    }
    forall i | 0 <= i < |u| ensures Report(pid, u[i].pid, u[i].status) in finished - (reaped + {gone}) {
      assert u[i] == t[if i < k then i else i + 1];
    }
  }

  lemma ReapOther(pid: nat, t: seq<Exit>, finished: set<Report>, reaped: set<Report>, r: Report)
    requires TableRight(pid, t, finished, reaped) && r.parent != pid
    ensures TableRight(pid, t, finished, reaped + {r})
  {
  }

  lemma WaitRight(s: State, pid: int)
    requires Sound(s)
    ensures ReportsRight(Wait(s, pid))
  {
    if Waitable(s, pid).Some? {
      var k := Waitable(s, pid).value;
      var t := Wait(s, pid);
      var r := Report(s.pid, s.exited[k].pid, s.exited[k].status);
      ReapOwn(s.pid, s.exited, s.finished, s.reaped, k);
      forall i | 0 <= i < |t.stack|
        ensures TableRight(t.stack[i].pid, t.stack[i].exited, t.finished, t.reaped)
      {
        BelowRunning(s, i);
        ReapOther(s.stack[i].pid, s.stack[i].exited, s.finished, s.reaped, r);
      }
    }
  }

  lemma SameRight(s: State, t: State)
    requires ReportsRight(s)
    requires t.pid == s.pid && t.exited == s.exited && t.stack == s.stack && t.nextPid == s.nextPid
    requires t.finished == s.finished && t.reaped == s.reaped && t.execPid == s.execPid
    ensures ReportsRight(t)
  {
  }

  lemma StepSound(s: State, e: Event)
    requires Sound(s) && (Over(e) ==> s.stack != [])
    ensures Sound(Step(s, e))
  {
    StepInOrder(s, e);
    hide PidsInOrder, ReportsRight;
    match e
    case Open(_, _) => SameRight(s, Step(s, e));
    case Close(_) => SameRight(s, Step(s, e));
    case Store(_) => SameRight(s, Step(s, e));
    case ChangesDir(_) => SameRight(s, Step(s, e));
    case Directories(_) => SameRight(s, Step(s, e));
    case Waits(pid) => WaitRight(s, pid);
    case Spawned(status) => SpawnRight(s, status);
    case Forks(sp, data) =>
      var p := s.(sp := sp, data := data);
      SameInOrder(s, p);
      SameRight(s, p);
      BeginRight(p);
      SameRight(Begin(p), Step(s, e));
    case Ends(status) =>
      FinishRight(s, status);
      SameRight(Finish(s, status), Step(s, e));
    case Execs(kernelPid) => ExecRight(s, kernelPid);
  }

  lemma {:induction false} RunSound(s: State, es: seq<Event>)
    requires Sound(s) && StaysAbove(es, |s.stack|, 0)
    ensures Sound(Run(s, es))
    decreases |es|
  {
    hide Sound;
    if es != [] {
      StepSound(s, es[0]);
      RunSound(Step(s, es[0]), es[1..]);
    }
  }

  /** Pids are given out one after the other from 1001 on. */
  ghost predicate InSequence(s: State) {
    && s.nextPid == (if s.given == [] then 0 else 1000 + |s.given|)
    && forall i :: 0 <= i < |s.given| ==> s.given[i] == 1001 + i
  }

  lemma {:induction false} RunInSequence(s: State, es: seq<Event>)
    requires InSequence(s) && StaysAbove(es, |s.stack|, 0)
    ensures InSequence(Run(s, es))
    decreases |es|
  {
    if es != [] {
      StepInSequence(s, es[0]);
      RunInSequence(Step(s, es[0]), es[1..]);
    }
  }

  lemma StepInSequence(s: State, e: Event)
    requires InSequence(s) && (Over(e) ==> s.stack != [])
    ensures InSequence(Step(s, e))
  {
  }

  lemma PidsInSequence(mem: seq<byte>, streams: Table, refs: map<nat, nat>, cwd: nat, dirs: set<nat>,
                       es: seq<Event>, i: nat)
    requires StaysAbove(es, 0, 0)
    requires i < |Run(Start(mem, streams, refs, cwd, dirs), es).given|
    ensures Run(Start(mem, streams, refs, cwd, dirs), es).given[i] == 1001 + i
  {
    RunInSequence(Start(mem, streams, refs, cwd, dirs), es);
  }

  /** No pid is ever given out twice. */
  lemma PidsDistinct(mem: seq<byte>, streams: Table, refs: map<nat, nat>, cwd: nat, dirs: set<nat>,
                     es: seq<Event>, i: nat, j: nat)
    requires StaysAbove(es, 0, 0)
    requires i < j < |Run(Start(mem, streams, refs, cwd, dirs), es).given|
    ensures var given := Run(Start(mem, streams, refs, cwd, dirs), es).given;
            given[i] != given[j] && 100 !in given
  {
    StartSound(mem, streams, refs, cwd, dirs);
    RunSound(Start(mem, streams, refs, cwd, dirs), es);
  }

  /** What a wait reports: a child of the caller, with the status it finished with, and one
      never reported before; of any child, the one in front, behind which later ones are added. A
      wait fails exactly when no such child is left, or the one asked for is not among them. */
  lemma WaitReports(s: State, pid: int)
    requires Sound(s)
    ensures match Waitable(s, pid)
            case Some(k) =>
              var r := Report(s.pid, s.exited[k].pid, s.exited[k].status);
              && r in s.finished && r !in s.reaped && (forall q :: q in s.reaped ==> q.child != r.child)
              && (pid > 0 ==> r.child == pid) && (pid <= 0 ==> k == 0)
            case None =>
              forall r :: r in s.finished - s.reaped && r.parent == s.pid ==> pid > 0 && r.child != pid
  {
    match Waitable(s, pid)
    case Some(k) =>
      var r := Report(s.pid, s.exited[k].pid, s.exited[k].status);
      assert r in s.finished - s.reaped;
    case None =>
      forall r | r in s.finished - s.reaped && r.parent == s.pid ensures pid > 0 && r.child != pid {
        assert Exit(r.child, r.status) in s.exited;
      }
  }

  // ----- Aliases -----

  /** No pid of the aliases has an exit entry too, and none of them is above `last`. */
  ghost predicate Apart(t: seq<Exit>, aliases: map<nat, nat>, last: nat) {
    forall c :: c in aliases ==> c <= last && forall k :: 0 <= k < |t| ==> t[k].pid != c
  }

  /** So it is for the running process and for every waiting parent, whose aliases are older
      than the child it waits for. */
  ghost predicate AllApart(s: State) {
    && Apart(s.exited, s.aliases, s.nextPid)
    && forall i :: 0 <= i < |s.stack| ==> FrameApart(s.stack[i])
  }

  ghost predicate FrameApart(f: Snapshot) {
    Apart(f.exited, f.aliases, f.childPid) && f.childPid !in f.aliases
  }

  lemma BeginApart(s: State)
    requires AllApart(s)
    ensures AllApart(Begin(s))
  {
    var b := Begin(s);
    forall i | 0 <= i < |b.stack| ensures FrameApart(b.stack[i]) {
      if i < |s.stack| {
        assert b.stack[i] == s.stack[i];
      }
    }
  }

  /** The end of a child leaves an exit entry or an alias under its pid, and never both. */
  lemma FinishApart(s: State, exec: nat, status: int)
    requires Sound(s) && AllApart(s) && s.stack != []
    ensures var f, child := Finish(s.(execPid := exec), status), s.stack[|s.stack| - 1].childPid;
            && AllApart(f)
            && (Find(f.exited, child).Some? <==> exec == 0) && (child in f.aliases <==> exec != 0)
  {
    var top := s.stack[|s.stack| - 1];
    var f := Finish(s.(execPid := exec), status);
    assert Chained(s, |s.stack| - 1) && FrameApart(top);
    NoEntry(s);
    if exec == 0 {
      assert f.exited[|top.exited|].pid == top.childPid;
    }
    forall i | 0 <= i < |f.stack| ensures FrameApart(f.stack[i]) {
      assert f.stack[i] == s.stack[i];
    }
  }

  /** A child that has not finished has no entry in its parent's wait table. */
  lemma NoEntry(s: State)
    requires Sound(s) && s.stack != []
    ensures Find(s.stack[|s.stack| - 1].exited, s.stack[|s.stack| - 1].childPid).None?
  {
    var top := s.stack[|s.stack| - 1];
    forall k | 0 <= k < |top.exited| ensures top.exited[k].pid != top.childPid {
      assert Report(top.pid, top.exited[k].pid, top.exited[k].status) in s.finished;
    }
  }

  lemma SameApart(s: State, t: State)
    requires AllApart(s)
    requires t.exited == s.exited && t.aliases == s.aliases && t.stack == s.stack && t.nextPid == s.nextPid
    ensures AllApart(t)
  {
  }

  lemma WaitApart(s: State, pid: int)
    requires AllApart(s)
    ensures AllApart(Wait(s, pid))
  {
  }

  lemma SpawnApart(s: State, status: int)
    requires AllApart(s)
    ensures AllApart(Spawn(s, status))
  {
  }

  lemma StepApart(s: State, e: Event)
    requires Sound(s) && AllApart(s) && (Over(e) ==> s.stack != [])
    ensures AllApart(Step(s, e))
  {
    assert s.(execPid := 0) == s;
    hide Sound, AllApart, Finish, Begin, Wait, Spawn;
    match e
    case Open(_, _) => SameApart(s, Step(s, e));
    case Close(_) => SameApart(s, Step(s, e));
    case Store(_) => SameApart(s, Step(s, e));
    case ChangesDir(_) => SameApart(s, Step(s, e));
    case Directories(_) => SameApart(s, Step(s, e));
    case Waits(pid) => WaitApart(s, pid);
    case Spawned(status) => SpawnApart(s, status);
    case Forks(sp, data) =>
      SameApart(s, s.(sp := sp, data := data));
      BeginApart(s.(sp := sp, data := data));
      SameApart(Begin(s.(sp := sp, data := data)), Step(s, e));
    case Ends(status) =>
      FinishApart(s, 0, status);
      SameApart(Finish(s, status), Step(s, e));
    case Execs(kernelPid) =>
      FinishApart(s, kernelPid, 0);
      SameApart(Finish(s.(execPid := kernelPid), 0), Step(s, e));
  }

  lemma {:induction false} RunApart(s: State, es: seq<Event>)
    requires Sound(s) && AllApart(s) && StaysAbove(es, |s.stack|, 0)
    ensures Sound(Run(s, es)) && AllApart(Run(s, es))
    decreases |es|
  {
    hide Sound, AllApart;
    if es != [] {
      StepSound(s, es[0]);
      StepApart(s, es[0]);
      RunApart(Step(s, es[0]), es[1..]);
    }
  }

  /** After a child's whole life its parent has an exit entry under the child's pid, or an
      alias for the kernel process that took its place: one of the two and never both. */
  lemma ChildLeavesOne(p: State, body: seq<Event>, exec: nat, status: int)
    requires Sound(p) && AllApart(p)
    requires StaysAbove(body, |p.stack| + 1, |p.stack| + 1) && Depth(body) == 0
    ensures StaysAbove(body, |p.stack| + 1, 0)
    ensures var e := Run(Rewound(Begin(p)), body).(execPid := exec);
            && e.stack != []
            && var t, child := Finish(e, status), FreshPid(p);
               && (Find(t.exited, child).Some? <==> exec == 0) && (child in t.aliases <==> exec != 0)
               && (exec != 0 ==> t.aliases[child] == exec)
               && forall pid: nat :: pid in t.aliases ==> Find(t.exited, pid).None?
  {
    var c := Rewound(Begin(p));
    ForkSound(p);
    ChildStack(p, body);
    hide Sound, AllApart, Rewound, Begin, Run;
    RunApart(c, body);
    var e := Run(c, body);
    FinishApart(e, exec, status);
    TablesApart(Finish(e.(execPid := exec), status));
  }

  /** At the end of a child the innermost waiting parent is its own. */
  lemma ChildStack(p: State, body: seq<Event>)
    requires StaysAbove(body, |p.stack| + 1, |p.stack| + 1) && Depth(body) == 0
    ensures StaysAbove(body, |p.stack| + 1, 0)
    ensures var e := Run(Rewound(Begin(p)), body);
            && e.stack != [] && e.stack[|e.stack| - 1].childPid == FreshPid(p)
            && |e.stack| == |Rewound(Begin(p)).stack| == |p.stack| + 1
  {
    var c := Rewound(Begin(p));
    StackKept(c, body, |c.stack|);
    var e := Run(c, body);
    assert e.stack == e.stack[..|c.stack|] == c.stack[..|c.stack|] == c.stack;
  }

  lemma TablesApart(s: State)
    requires AllApart(s)
    ensures forall pid: nat :: pid in s.aliases ==> Find(s.exited, pid).None?
  {
  }

  lemma ForkSound(p: State)
    requires Sound(p) && AllApart(p)
    ensures Sound(Rewound(Begin(p))) && AllApart(Rewound(Begin(p)))
  {
    var e := Forks(p.sp, p.data);
    assert p.(sp := p.sp, data := p.data) == p;
    StepSound(p, e);
    StepApart(p, e);
  }

  /** On every run from the start, no pid stands in both tables of the running process. */
  lemma NeverBoth(mem: seq<byte>, streams: Table, refs: map<nat, nat>, cwd: nat, dirs: set<nat>,
                  es: seq<Event>, pid: nat)
    requires StaysAbove(es, 0, 0)
    ensures var s := Run(Start(mem, streams, refs, cwd, dirs), es);
            pid in s.aliases ==> Find(s.exited, pid).None?
  {
    StartSound(mem, streams, refs, cwd, dirs);
    RunApart(Start(mem, streams, refs, cwd, dirs), es);
  }
}
