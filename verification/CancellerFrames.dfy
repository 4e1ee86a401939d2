/**
 What the frame adapter of packages/webrtc-audio-processing/package/index.js puts out, frame by
 frame: which microphone and reference samples each run of the processor is given, and where
 its output goes.
 */
module CancellerFrames {
  import opened Bytes
  import opened Canceller

  // ----- What is asked for -----

  /** Samples as the processor gets them: silence for what is not finite. */
  function Heard(xs: seq<Sample>): (r: seq<Sample>)
    ensures |r| == |xs|
  {
    seq(|xs|, i requires 0 <= i < |xs| => if xs[i].Finite? then xs[i] else Finite(0.0))
  }

  predicate NotFiniteAt(xs: seq<Sample>, i: int) {
    0 <= i < |xs| && !xs[i].Finite?
  }

  /** How many of the samples are not finite. */
  function NotFinite(xs: seq<Sample>): nat {
    |set i | 0 <= i < |xs| && NotFiniteAt(xs, i)|
  }

  /** Where the k-th frame begins. */
  function At<P>(c: Config<P>, k: nat): nat {
    k * c.frame
  }

  /** The reference samples queued when the k-th frame is full: those of before and those that
      came with the frame, the oldest of them dropped if there is no room. */
  function Arrived<P>(c: Config<P>, queue: seq<Sample>, ref: seq<Sample>, k: nat): seq<Sample> {
    var all := queue + Heard(Between(ref, At(c, k), At(c, k) + c.frame));
    if |all| > c.cap then all[|all| - c.cap..] else all
  }

  /** The reference frame: what is queued, then silence. */
  function Due<P>(c: Config<P>, queue: seq<Sample>): seq<Sample> {
    seq(c.frame, i requires 0 <= i < c.frame => if i < |queue| then queue[i] else Finite(0.0))
  }

  function Later(queue: seq<Sample>, n: nat): seq<Sample> {
    if n <= |queue| then queue[n..] else []
  }

  /** The k-th run of the processor: from the state the run before left, on the k-th frame of
      the microphone and the reference frame due then. */
  ghost predicate RunAt<P(!new)>(c: Config<P>, s: State<P>, mic: seq<Sample>, ref: seq<Sample>,
                                 runs: seq<FrameResult<P>>, queues: seq<seq<Sample>>, k: nat)
    requires k < |runs| && |queues| == |runs| + 1 && At(c, k) + c.frame <= |mic|
  {
    var queue := Arrived(c, queues[k], ref, k);
    && runs[k] == c.run(if k == 0 then s.p else runs[k - 1].next, Heard(mic[At(c, k)..At(c, k) + c.frame]), Due(c, queue))
    && queues[k + 1] == Later(queue, c.frame)
  }

  /** The runs over the first whole frames of a block, and the reference queue before each. */
  ghost predicate RunsOver<P(!new)>(c: Config<P>, s: State<P>, mic: seq<Sample>, ref: seq<Sample>,
                                    runs: seq<FrameResult<P>>, queues: seq<seq<Sample>>)
  {
    && |queues| == |runs| + 1 && queues[0] == s.queue && At(c, |runs|) <= |mic|
    && forall k :: 0 <= k < |runs| ==> At(c, k) + c.frame <= |mic| && RunAt(c, s, mic, ref, runs, queues, k)
  }

  /** The frame that is put out while the k-th frame comes in. */
  function Held<P>(s: State<P>, runs: seq<FrameResult<P>>, k: nat): seq<Sample>
    requires k <= |runs|
  {
    if k == 0 then s.out else runs[k - 1].out
  }

  /** The k-th frame of the output, or as much of it as there is. */
  predicate FrameOut<P(==)>(c: Config<P>, s: State<P>, runs: seq<FrameResult<P>>, out: seq<Sample>, k: nat)
    requires k <= |runs|
  {
    At(c, k) <= |out| ==> out[At(c, k)..Min(At(c, k) + c.frame, |out|)] <= Held(s, runs, k)
  }

  predicate FailedAt<P>(runs: seq<FrameResult<P>>, k: int) {
    0 <= k < |runs| && !runs[k].ok
  }

  /** How many runs failed. */
  function Failures<P>(runs: seq<FrameResult<P>>): nat {
    |set k | 0 <= k < |runs| && FailedAt(runs, k)|
  }

  function Newest(xs: seq<Sample>, n: nat): seq<Sample> {
    if |xs| > n then xs[|xs| - n..] else xs
  }

  function From(xs: seq<Sample>, n: nat): seq<Sample> {
    if n <= |xs| then xs[n..] else []
  }

  // ----- Counting and cleaning -----

  lemma CleanIsHeard(xs: seq<Sample>)
    ensures CleanAll(xs) == Heard(xs)
  {
  }

  lemma LastIsNewest(xs: seq<Sample>, n: nat)
    ensures Last(xs, n) == Newest(xs, n)
  {
  }

  lemma {:induction false} BadIsNotFinite(xs: seq<Sample>)
    ensures Bad(xs) == NotFinite(xs)
  {
    if xs == [] {
      assert (set i | 0 <= i < |xs| && NotFiniteAt(xs, i)) == {};
    } else {
      var last := |xs| - 1;
      var front := xs[..last];
      assert xs == front + [xs[last]];
      BadAppend(front, [xs[last]]);
      BadIsNotFinite(front);
      var before := set i | 0 <= i < |front| && NotFiniteAt(front, i);
      assert (set i | 0 <= i < |xs| && NotFiniteAt(xs, i)) == before + if xs[last].Finite? then {} else {last};
    }
  }

  lemma OneMoreFailure<P>(runs: seq<FrameResult<P>>, r: FrameResult<P>)
    ensures Failures(runs + [r]) == Failures(runs) + if r.ok then 0 else 1
  {
    var more := runs + [r];
    var before := set k | 0 <= k < |runs| && FailedAt(runs, k);
    assert (set k | 0 <= k < |more| && FailedAt(more, k)) == before + if r.ok then {} else {|runs|};
  }

  // ----- One frame -----

  /** A whole frame, taken in from its beginning. */
  lemma WholeFrame<P(!new)>(c: Config<P>, t: State<P>, m: seq<Sample>, ref: seq<Sample>, k: nat)
    requires Sound(c) && Inv(c, t) && t.partial == [] && |m| == c.frame
    ensures var queue := Arrived(c, t.queue, ref, k);
            var r := Between(ref, At(c, k), At(c, k) + c.frame);
            var run, u := c.run(t.p, Heard(m), Due(c, queue)), Chunk(c, t, m, r);
            && u.p == run.next && u.out == run.out && u.partial == [] && u.queue == Later(queue, c.frame)
            && u.failed == t.failed + (if run.ok then 0 else 1)
            && u.nonFinite == t.nonFinite + NotFinite(r) + NotFinite(m)
  {
    hide Bad, NotFinite, CleanAll, Heard;
    var r := Between(ref, At(c, k), At(c, k) + c.frame);
    CleanIsHeard(r);
    CleanIsHeard(m);
    BadIsNotFinite(r);
    BadIsNotFinite(m);
    var pushed := Push(c, t, r);
    assert pushed.queue == Arrived(c, t.queue, ref, k);
    assert Fill(pushed, m).partial == [] + Heard(m) == Heard(m);
    DueIsRefFrame(c, Fill(pushed, m));
  }

  lemma DueIsRefFrame<P>(c: Config<P>, s: State<P>)
    ensures RefFrame(c, s) == Due(c, s.queue) && Taken(c, s).queue == Later(s.queue, c.frame)
  {
  }

  // ----- The frames of a block -----

  /** After the first n whole frames of a block. */
  ghost predicate AfterFrames<P(!new)>(c: Config<P>, s: State<P>, mic: seq<Sample>, ref: seq<Sample>, n: nat,
                                       runs: seq<FrameResult<P>>, queues: seq<seq<Sample>>)
  {
    && |runs| == n && |queues| == n + 1 && At(c, n) <= |mic| && RunsOver(c, s, mic, ref, runs, queues)
    && var (t, out) := Samples(c, s, mic[..At(c, n)], Upto(ref, At(c, n)));
       && Inv(c, t) && |out| == At(c, n) && Reached(s, t, runs, queues)
       && t.partial == []
       && t.nonFinite == s.nonFinite + NotFinite(mic[..At(c, n)]) + NotFinite(Upto(ref, At(c, n)))
       && forall k :: 0 <= k < n ==> FrameOut(c, s, runs, out, k)
  }

  /** The state the runs leave, but for what came in since. */
  ghost predicate Reached<P(!new)>(s: State<P>, t: State<P>, runs: seq<FrameResult<P>>, queues: seq<seq<Sample>>)
    requires |queues| == |runs| + 1
  {
    && t.p == (if runs == [] then s.p else runs[|runs| - 1].next) && t.queue == queues[|runs|]
    && t.out == Held(s, runs, |runs|) && t.failed == s.failed + Failures(runs)
  }

  lemma NoFrames<P(!new)>(c: Config<P>, s: State<P>, mic: seq<Sample>, ref: seq<Sample>)
    requires Sound(c) && Inv(c, s) && s.partial == []
    ensures AfterFrames(c, s, mic, ref, 0, [], [s.queue])
  {
    assert mic[..0] == [] && Upto(ref, 0) == [];
    BadIsNotFinite([]);
    var none: seq<FrameResult<P>> := [];
    assert (set k | 0 <= k < |none| && FailedAt(none, k)) == {};
  }

  lemma RunsMore<P(!new)>(c: Config<P>, s: State<P>, mic: seq<Sample>, ref: seq<Sample>, n: nat,
                          runs: seq<FrameResult<P>>, queues: seq<seq<Sample>>, run: FrameResult<P>, queue: seq<Sample>)
    requires |runs| == n && RunsOver(c, s, mic, ref, runs, queues) && At(c, n) + c.frame <= |mic|
    requires RunAt(c, s, mic, ref, runs + [run], queues + [queue], n)
    ensures At(c, n + 1) == At(c, n) + c.frame && RunsOver(c, s, mic, ref, runs + [run], queues + [queue])
  {
    var rs, qs := runs + [run], queues + [queue];
    NextAt(c, n);
    forall k | 0 <= k < n + 1 ensures At(c, k) + c.frame <= |mic| && RunAt(c, s, mic, ref, rs, qs, k) {
      if k < n {
        assert RunAt(c, s, mic, ref, runs, queues, k);
      }
    }
  }

  lemma NextAt<P>(c: Config<P>, n: nat)
    ensures At(c, n + 1) == At(c, n) + c.frame
  {
  }

  lemma {:induction false} FirstFrames<P(!new)>(c: Config<P>, s: State<P>, mic: seq<Sample>, ref: seq<Sample>, n: nat)
    requires Sound(c) && Inv(c, s) && s.partial == [] && At(c, n) <= |mic|
    ensures exists runs, queues :: AfterFrames(c, s, mic, ref, n, runs, queues)
  {
    if n == 0 {
      NoFrames(c, s, mic, ref);
    } else {
      NextAt(c, n - 1);
      var m := n - 1;
      FirstFrames(c, s, mic, ref, m);
      var runs, queues :| AfterFrames(c, s, mic, ref, m, runs, queues);
      AnotherFrame(c, s, mic, ref, m, n, runs, queues);
    }
  }

  lemma AnotherFrame<P(!new)>(c: Config<P>, s: State<P>, mic: seq<Sample>, ref: seq<Sample>, n: nat, n': nat,
                              runs: seq<FrameResult<P>>, queues: seq<seq<Sample>>)
    requires Sound(c) && Inv(c, s) && AfterFrames(c, s, mic, ref, n, runs, queues)
    requires n' == n + 1 && At(c, n) + c.frame <= |mic|
    ensures exists runs', queues' :: AfterFrames(c, s, mic, ref, n', runs', queues')
  {
    hide Samples, Sound, Inv, Chunk, RunAt, RunsOver, FrameOut, NotFinite, Failures, Upto, Between, Arrived, Due, Later, Heard;
    var j := At(c, n);
    var (t, out) := Samples(c, s, mic[..j], Upto(ref, j));
    var m, r := mic[j..j + c.frame], Between(ref, j, j + c.frame);
    var queue := Arrived(c, t.queue, ref, n);
    var run := c.run(t.p, Heard(m), Due(c, queue));
    var runs', queues' := runs + [run], queues + [Later(queue, c.frame)];
    SoundParts(c, t);
    NextChunk(c, s, mic, ref, j, c.frame, t, out);
    WholeFrame(c, t, m, ref, n);
    RunHolds(c, s, mic, ref, n, runs, queues, t);
    RunsMore(c, s, mic, ref, n, runs, queues, run, Later(queue, c.frame));
    OneMoreFailure(runs, run);
    CountsMore(mic, j, c.frame);
    UptoMore(ref, j, c.frame);
    BetweenLength(ref, j, c.frame);
    ChunkKeeps(c, t, m, r);
    var piece := t.out[|t.partial|..|t.partial| + c.frame];
    assert (out + piece)[|out|..] == piece == t.out[0..c.frame];
    OutMore(c, s, runs, runs', out, t.out, out + piece, n);
    assert AfterFrames(c, s, mic, ref, n', runs', queues');
  }

  lemma SoundParts<P(!new)>(c: Config<P>, t: State<P>)
    requires Sound(c) && Inv(c, t)
    ensures 0 < c.frame && |t.out| == c.frame && |t.queue| <= c.cap
  {
  }

  lemma BetweenLength(ref: seq<Sample>, j: nat, k: nat)
    ensures |Between(ref, j, j + k)| <= k
  {
  }

  /** The run that the next frame causes is the next one. */
  lemma RunHolds<P(!new)>(c: Config<P>, s: State<P>, mic: seq<Sample>, ref: seq<Sample>, n: nat,
                          runs: seq<FrameResult<P>>, queues: seq<seq<Sample>>, t: State<P>)
    requires |runs| == n && |queues| == n + 1 && Reached(s, t, runs, queues) && At(c, n) + c.frame <= |mic|
    ensures var queue := Arrived(c, t.queue, ref, n);
            var run := c.run(t.p, Heard(mic[At(c, n)..At(c, n) + c.frame]), Due(c, queue));
            RunAt(c, s, mic, ref, runs + [run], queues + [Later(queue, c.frame)], n)
  {
    hide Arrived, Due, Later, Heard, At;
  }

  lemma CountsMore(xs: seq<Sample>, j: nat, k: nat)
    requires j + k <= |xs|
    ensures NotFinite(xs[..j + k]) == NotFinite(xs[..j]) + NotFinite(xs[j..j + k])
  {
    hide Bad, NotFinite;
    assert xs[..j + k] == xs[..j] + xs[j..j + k];
    BadAppend(xs[..j], xs[j..j + k]);
    BadIsNotFinite(xs[..j]);
    BadIsNotFinite(xs[j..j + k]);
    BadIsNotFinite(xs[..j + k]);
  }

  lemma UptoMore(xs: seq<Sample>, j: nat, k: nat)
    ensures NotFinite(Upto(xs, j + k)) == NotFinite(Upto(xs, j)) + NotFinite(Between(xs, j, j + k))
  {
    hide Bad, NotFinite;
    assert Upto(xs, j + k) == Upto(xs, j) + Between(xs, j, j + k);
    BadAppend(Upto(xs, j), Between(xs, j, j + k));
    BadIsNotFinite(Upto(xs, j));
    BadIsNotFinite(Between(xs, j, j + k));
    BadIsNotFinite(Upto(xs, j + k));
  }

  lemma OutMore<P(!new)>(c: Config<P>, s: State<P>, runs: seq<FrameResult<P>>, runs': seq<FrameResult<P>>,
                         out: seq<Sample>, held: seq<Sample>, more: seq<Sample>, n: nat)
    requires |runs| == n < |runs'| && runs <= runs' && |out| == At(c, n)
    requires held == Held(s, runs, n) && |held| == c.frame && out <= more && more[|out|..] == held[0..c.frame]
    requires forall k :: 0 <= k < n ==> FrameOut(c, s, runs, out, k)
    ensures forall k :: 0 <= k < n + 1 ==> FrameOut(c, s, runs', more, k)
  {
    forall k | 0 <= k < n + 1 ensures FrameOut(c, s, runs', more, k) {
      assert Held(s, runs', k) == Held(s, runs, k);
      if k < n {
        assert FrameOut(c, s, runs, out, k);
        AtOrder(c, k, n);
        assert more[At(c, k)..At(c, k) + c.frame] == out[At(c, k)..At(c, k) + c.frame];
      } else {
        assert more[At(c, n)..At(c, n) + c.frame] == held;
      }
    }
  }

  lemma AtOrder<P>(c: Config<P>, k: nat, n: nat)
    requires k < n
    ensures At(c, k) + c.frame <= At(c, n)
  {
    NextAt(c, n - 1);
    if k < n - 1 {
      AtOrder(c, k, n - 1);
    }
  }

  // ----- A whole block -----

  /** What a call of `cancel` amounts to when it begins with an empty frame: as many runs as the
      block has whole frames; while a frame comes in, what was held goes out; what is left of the
      block waits, and so do the reference samples that are left. */
  ghost predicate Cancelled<P(!new)>(c: Config<P>, s: State<P>, mic: seq<Sample>, ref: seq<Sample>,
                                     runs: seq<FrameResult<P>>, queues: seq<seq<Sample>>,
                                     t: State<P>, out: seq<Sample>)
  {
    var n := |runs|;
    && RunsOver(c, s, mic, ref, runs, queues) && At(c, n) <= |mic| < At(c, n) + c.frame
    && |out| == |mic| && (forall k :: 0 <= k <= n ==> FrameOut(c, s, runs, out, k))
    && t.p == (if n == 0 then s.p else runs[n - 1].next)
    && t.out == Held(s, runs, n)
    && t.partial == Heard(mic[At(c, n)..])
    && t.queue == Newest(queues[n] + Heard(From(ref, At(c, n))), c.cap)
    && t.failed == s.failed + Failures(runs)
    && t.nonFinite == s.nonFinite + NotFinite(mic) + NotFinite(Upto(ref, |mic|))
                      + NotFinite(Newest(From(ref, |mic|), c.cap))
  }

  lemma WholeFrames<P>(c: Config<P>, len: nat) returns (n: nat)
    requires c.frame > 0
    ensures At(c, n) <= len < At(c, n) + c.frame
  {
    n := len / c.frame;
    assert len == n * c.frame + len % c.frame;
  }

  /** The state and output when all of the microphone block has come in. */
  ghost predicate AfterBlock<P(!new)>(c: Config<P>, s: State<P>, mic: seq<Sample>, ref: seq<Sample>, j: nat,
                                      t: State<P>, out: seq<Sample>, u: State<P>, all: seq<Sample>)
    requires j <= |mic|
  {
    && u.p == t.p && u.out == t.out && u.failed == t.failed && u.partial == Heard(mic[j..])
    && u.queue == Newest(t.queue + Heard(Between(ref, j, |mic|)), c.cap)
    && u.nonFinite == t.nonFinite + NotFinite(mic[j..]) + NotFinite(Between(ref, j, |mic|))
    && |all| == |mic| && out <= all && all[|out|..] <= t.out
  }

  /** Less than a frame waits for the rest. */
  lemma PartFrame<P(!new)>(c: Config<P>, t: State<P>, m: seq<Sample>, r: seq<Sample>)
    requires Sound(c) && Inv(c, t) && t.partial == [] && |m| < c.frame && |r| <= c.frame
    ensures var u := Chunk(c, t, m, r);
            && u.p == t.p && u.out == t.out && u.failed == t.failed && u.partial == Heard(m)
            && u.queue == Newest(t.queue + Heard(r), c.cap)
            && u.nonFinite == t.nonFinite + NotFinite(m) + NotFinite(r)
  {
    hide Bad, NotFinite, CleanAll, Heard;
    CleanIsHeard(r);
    CleanIsHeard(m);
    BadIsNotFinite(r);
    BadIsNotFinite(m);
    assert [] + Heard(m) == Heard(m);
  }

  lemma NothingLeft<P(!new)>(c: Config<P>, s: State<P>, mic: seq<Sample>, ref: seq<Sample>, t: State<P>, out: seq<Sample>)
    requires Inv(c, t) && t.partial == [] && |out| == |mic|
    ensures AfterBlock(c, s, mic, ref, |mic|, t, out, t, out)
  {
    assert mic[|mic|..] == [] && Between(ref, |mic|, |mic|) == [] && out[|out|..] == [];
    assert t.queue + [] == t.queue && Heard([]) == [];
    BadIsNotFinite([]);
  }

  lemma BlockTaken<P(!new)>(c: Config<P>, s: State<P>, mic: seq<Sample>, ref: seq<Sample>, n: nat,
                            runs: seq<FrameResult<P>>, queues: seq<seq<Sample>>)
    requires Sound(c) && Inv(c, s) && AfterFrames(c, s, mic, ref, n, runs, queues) && |mic| < At(c, n) + c.frame
    ensures var (t, out) := Samples(c, s, mic[..At(c, n)], Upto(ref, At(c, n)));
            var (u, all) := Samples(c, s, mic, Upto(ref, |mic|));
            AfterBlock(c, s, mic, ref, At(c, n), t, out, u, all)
  {
    hide Samples, Sound, Inv, Chunk, RunsOver, FrameOut, NotFinite, Failures, Upto, Between, Heard, Newest, Reached;
    var j := At(c, n);
    var (t, out) := Samples(c, s, mic[..j], Upto(ref, j));
    assert mic[..|mic|] == mic;
    SoundParts(c, t);
    if j == |mic| {
      NothingLeft(c, s, mic, ref, t, out);
    } else {
      var k := |mic| - j;
      NextChunk(c, s, mic, ref, j, k, t, out);
      assert mic[j..j + k] == mic[j..];
      BetweenLength(ref, j, k);
      PartFrame(c, t, mic[j..], Between(ref, j, j + k));
      var piece := t.out[|t.partial|..|t.partial| + k];
      assert (out + piece)[|out|..] == piece == t.out[..k];
    }
  }

  /** The reference samples behind the block. */
  lemma SurplusQueued<P(!new)>(c: Config<P>, u: State<P>, queue: seq<Sample>, ref: seq<Sample>, j: nat, n: nat)
    requires j <= n && u.queue == Newest(queue + Heard(Between(ref, j, n)), c.cap)
    requires |queue| <= c.cap
    ensures var v := if n < |ref| then Push(c, u, ref[n..]) else u;
            && v.queue == Newest(queue + Heard(From(ref, j)), c.cap)
            && v.nonFinite == u.nonFinite + NotFinite(Newest(From(ref, n), c.cap))
            && v.p == u.p && v.out == u.out && v.partial == u.partial && v.failed == u.failed
  {
    hide Bad, NotFinite, Heard, CleanAll, Newest, Last, Between, From;
    RefSplit(ref, j, n);
    if n < |ref| {
      var near, far := Between(ref, j, n), ref[n..];
      CleanIsHeard(far);
      QueueJoins(queue, near, far, c.cap);
      LastIsNewest(far, c.cap);
      BadIsNotFinite(Last(far, c.cap));
      LastIsNewest(u.queue + Heard(far), c.cap);
    } else {
      assert NotFinite(Newest([], c.cap)) == 0 by { NoneNewest(c.cap); }
    }
  }

  lemma RefSplit(ref: seq<Sample>, j: nat, n: nat)
    requires j <= n
    ensures n < |ref| ==> From(ref, n) == ref[n..] && From(ref, j) == Between(ref, j, n) + ref[n..]
    ensures |ref| <= n ==> From(ref, n) == [] && From(ref, j) == Between(ref, j, n)
  {
  }

  lemma QueueJoins(queue: seq<Sample>, near: seq<Sample>, far: seq<Sample>, cap: nat)
    ensures Newest(Newest(queue + Heard(near), cap) + Heard(far), cap) == Newest(queue + Heard(near + far), cap)
  {
    hide Newest, Last, Heard;
    HeardJoins(near, far);
    assert queue + Heard(near) + Heard(far) == queue + (Heard(near) + Heard(far));
    LastTwice(queue + Heard(near), Heard(far), cap);
    LastIsNewest(queue + Heard(near), cap);
    LastIsNewest(Last(queue + Heard(near), cap) + Heard(far), cap);
    LastIsNewest(queue + Heard(near) + Heard(far), cap);
  }

  lemma HeardJoins(a: seq<Sample>, b: seq<Sample>)
    ensures Heard(a + b) == Heard(a) + Heard(b)
  {
  }

  lemma NoneNewest(cap: nat)
    ensures NotFinite(Newest([], cap)) == 0
  {
    BadIsNotFinite([]);
  }

  lemma OutWhole<P(!new)>(c: Config<P>, s: State<P>, runs: seq<FrameResult<P>>, out: seq<Sample>, all: seq<Sample>)
    requires |out| == At(c, |runs|) && (forall k :: 0 <= k < |runs| ==> FrameOut(c, s, runs, out, k))
    requires out <= all && all[|out|..] <= Held(s, runs, |runs|) && |all| < |out| + c.frame
    ensures forall k :: 0 <= k <= |runs| ==> FrameOut(c, s, runs, all, k)
  {
    var n := |runs|;
    forall k | 0 <= k <= n ensures FrameOut(c, s, runs, all, k) {
      if k < n {
        assert FrameOut(c, s, runs, out, k);
        AtOrder(c, k, n);
        assert all[At(c, k)..At(c, k) + c.frame] == out[At(c, k)..At(c, k) + c.frame];
      } else {
        assert all[At(c, n)..|all|] == all[|out|..];
      }
    }
  }

  /** From an empty frame on, for every block and reference block. */
  lemma FrameByFrame<P(!new)>(c: Config<P>, s: State<P>, mic: seq<Sample>, ref: seq<Sample>)
    requires Sound(c) && Inv(c, s) && s.partial == []
    ensures exists runs, queues :: Cancelled(c, s, mic, ref, runs, queues, Cancel(c, s, mic, ref).0, Cancel(c, s, mic, ref).1)
  {
    var n := WholeFrames(c, |mic|);
    FirstFrames(c, s, mic, ref, n);
    var runs, queues :| AfterFrames(c, s, mic, ref, n, runs, queues);
    BlockCancelled(c, s, mic, ref, n, runs, queues);
  }

  lemma BlockCancelled<P(!new)>(c: Config<P>, s: State<P>, mic: seq<Sample>, ref: seq<Sample>, n: nat,
                                runs: seq<FrameResult<P>>, queues: seq<seq<Sample>>)
    requires Sound(c) && Inv(c, s) && AfterFrames(c, s, mic, ref, n, runs, queues) && |mic| < At(c, n) + c.frame
    ensures Cancelled(c, s, mic, ref, runs, queues, Cancel(c, s, mic, ref).0, Cancel(c, s, mic, ref).1)
  {
    hide Samples, Sound, RunsOver, FrameOut, NotFinite, Failures, Upto, Between, Heard, Newest, From, Push;
    var j := At(c, n);
    var (t, out) := Samples(c, s, mic[..j], Upto(ref, j));
    var (u, all) := Samples(c, s, mic, Upto(ref, |mic|));
    BlockTaken(c, s, mic, ref, n, runs, queues);
    SurplusQueued(c, u, t.queue, ref, j, |mic|);
    OutWhole(c, s, runs, out, all);
    assert mic[..|mic|] == mic && j + (|mic| - j) == |mic|;
    CountsMore(mic, j, |mic| - j);
    assert mic[j..|mic|] == mic[j..];
    UptoMore(ref, j, |mic| - j);
  }
}
