/**
 The frame adapter and the reference ring of packages/webrtc-audio-processing/package/index.js:
 a caller may hand over audio in blocks of any size; the processor sees fixed frames.
 */
module Canceller {
  import opened Bytes

  /** A 32-bit float sample. Only being finite matters here: `v - v !== 0` holds of the rest. */
  datatype Sample = Finite(v: real) | PosInf | NegInf | NaN

  const SILENCE := Finite(0.0)

  function Clean(x: Sample): Sample {
    if x.Finite? then x else SILENCE
  }

  function CleanAll(xs: seq<Sample>): (r: seq<Sample>)
    ensures |r| == |xs|
  {
    seq(|xs|, i requires 0 <= i < |xs| => Clean(xs[i]))
  }

  /** How many samples are not finite. */
  function Bad(xs: seq<Sample>): nat {
    if xs == [] then 0 else (if xs[0].Finite? then 0 else 1) + Bad(xs[1..])
  }

  lemma {:induction false} BadAppend(a: seq<Sample>, b: seq<Sample>)
    ensures Bad(a + b) == Bad(a) + Bad(b)
  {
    if a == [] {
      assert a + b == b;
    } else {
      assert (a + b)[1..] == a[1..] + b;
      BadAppend(a[1..], b);
    }
  }

  // ----- The canceller as a value -----

  datatype FrameResult<P> = FrameResult(next: P, out: seq<Sample>, ok: bool)

  /** A deterministic frame processor, its frame size and the ring's capacity. */
  datatype Config<!P> = Config(frame: nat, cap: nat, run: (P, seq<Sample>, seq<Sample>) -> FrameResult<P>)

  ghost predicate Sound<P(!new)>(c: Config<P>) {
    && 0 < c.frame < c.cap
    && forall p, mic, ref :: |c.run(p, mic, ref).out| == c.frame
  }

  /** `queue` is what the ring holds, `partial` the part of the microphone frame filled so far,
      `out` the last processed frame; then the counters. */
  datatype State<P> = State(
    p: P,
    queue: seq<Sample>,
    partial: seq<Sample>,
    out: seq<Sample>,
    dropped: nat,
    short: nat,
    nonFinite: nat,
    failed: nat,
    pushed: nat,
    taken: nat,
    frames: nat)

  /** Between calls: a frame is never left full, the ring never overfull, and every reference
      sample pushed was dropped, taken for a frame, or is still queued. */
  ghost predicate Inv<P>(c: Config<P>, s: State<P>) {
    && |s.queue| <= c.cap && |s.partial| < c.frame && |s.out| == c.frame
    && s.pushed == s.dropped + s.taken + |s.queue|
    && s.taken + s.short == c.frame * s.frames
  }

  function Last(xs: seq<Sample>, n: nat): (r: seq<Sample>)
    ensures |r| == if |xs| <= n then |xs| else n
  {
    if |xs| <= n then xs else xs[|xs| - n..]
  }

  function Excess(len: nat, cap: nat): nat {
    if len <= cap then 0 else len - cap
  }

  /** `pushRef`: the queue keeps the last `cap` samples, cleaned. Samples that do not even
      reach the ring are dropped uninspected. */
  function Push<P>(c: Config<P>, s: State<P>, xs: seq<Sample>): State<P> {
    s.(queue := Last(s.queue + CleanAll(xs), c.cap),
       dropped := s.dropped + Excess(|s.queue| + |xs|, c.cap),
       nonFinite := s.nonFinite + Bad(Last(xs, c.cap)),
       pushed := s.pushed + |xs|)
  }

  /** The reference frame `takeRef` fills: what is queued, then silence. */
  function RefFrame<P>(c: Config<P>, s: State<P>): seq<Sample> {
    var n := Min(c.frame, |s.queue|);
    s.queue[..n] + seq(c.frame - n, _ => SILENCE)
  }

  function Taken<P>(c: Config<P>, s: State<P>): State<P> {
    var n := Min(c.frame, |s.queue|);
    s.(queue := s.queue[n..], taken := s.taken + n, short := s.short + (c.frame - n), frames := s.frames + 1)
  }

  /** One full frame: take the reference, process, start the next frame. */
  function Process<P>(c: Config<P>, s: State<P>): State<P> {
    var r := c.run(s.p, s.partial, RefFrame(c, s));
    Taken(c, s).(p := r.next, out := r.out, partial := [], failed := s.failed + (if r.ok then 0 else 1))
  }

  function Fill<P>(s: State<P>, mic: seq<Sample>): State<P> {
    s.(partial := s.partial + CleanAll(mic), nonFinite := s.nonFinite + Bad(mic))
  }

  function Flush<P>(c: Config<P>, s: State<P>): State<P> {
    if |s.partial| == c.frame then Process(c, s) else s
  }

  /** One microphone sample and, while there are any, one reference sample. */
  function Tick<P>(c: Config<P>, s: State<P>, m: Sample, r: seq<Sample>): State<P> {
    Flush(c, Fill(Push(c, s, r), [m]))
  }

  function Head(r: seq<Sample>): seq<Sample> {
    if r == [] then [] else [r[0]]
  }

  function Tail(r: seq<Sample>): seq<Sample> {
    if r == [] then [] else r[1..]
  }

  /** A fold over microphone samples, each with the next reference sample while there is one;
      `echo` is what a state puts out before the step. */
  function Fold<S>(step: (S, Sample, seq<Sample>) -> S, echo: S -> seq<Sample>, s: S, mic: seq<Sample>, ref: seq<Sample>)
    : (S, seq<Sample>)
    decreases |mic|
  {
    if mic == [] then (s, [])
    else
      var (t, out) := Fold(step, echo, step(s, mic[0], Head(ref)), mic[1..], Tail(ref));
      (t, echo(s) + out)
  }

  /** Sample by sample: the final state, and the sample put out for each one taken in. */
  function Samples<P>(c: Config<P>, s: State<P>, mic: seq<Sample>, ref: seq<Sample>): (State<P>, seq<Sample>) {
    Fold(Ticker(c), Echoer(), s, mic, ref)
  }

  function Ticker<P>(c: Config<P>): (State<P>, Sample, seq<Sample>) -> State<P> {
    (s, m, r) => Tick(c, s, m, r)
  }

  function Echoer<P>(): State<P> -> seq<Sample> {
    s => Echo(s)
  }

  function Echo<P>(s: State<P>): seq<Sample> {
    if |s.partial| < |s.out| then [s.out[|s.partial|]] else []
  }

  function Upto(xs: seq<Sample>, n: nat): seq<Sample> {
    xs[..Min(n, |xs|)]
  }

  /** `cancel`: reference samples beyond the microphone block are pushed at the end. */
  function Cancel<P>(c: Config<P>, s: State<P>, mic: seq<Sample>, ref: seq<Sample>): (State<P>, seq<Sample>) {
    var (t, out) := Samples(c, s, mic, Upto(ref, |mic|));
    (if |mic| < |ref| then Push(c, t, ref[|mic|..]) else t, out)
  }

  // ----- Block sizes do not matter -----

  lemma {:induction false} FoldSplit<S>(step: (S, Sample, seq<Sample>) -> S, echo: S -> seq<Sample>, s: S,
                                       m1: seq<Sample>, m2: seq<Sample>, r1: seq<Sample>, r2: seq<Sample>)
    requires |r1| == |m1| || (r2 == [] && |r1| <= |m1|)
    ensures var (t1, o1) := Fold(step, echo, s, m1, r1);
            var (t2, o2) := Fold(step, echo, t1, m2, r2);
            Fold(step, echo, s, m1 + m2, r1 + r2) == (t2, o1 + o2)
    decreases |m1|
  {
    if m1 == [] {
      assert m1 + m2 == m2 && r1 + r2 == r2;
      var (t2, o2) := Fold(step, echo, s, m2, r2);
      assert [] + o2 == o2;
    } else {
      var next := step(s, m1[0], Head(r1));
      assert (m1 + m2)[1..] == m1[1..] + m2;
      assert Tail(r1 + r2) == Tail(r1) + r2 && Head(r1 + r2) == Head(r1);
      FoldSplit(step, echo, next, m1[1..], m2, Tail(r1), r2);
      var (t1, o1) := Fold(step, echo, next, m1[1..], Tail(r1));
      var (t2, o2) := Fold(step, echo, t1, m2, r2);
      assert echo(s) + (o1 + o2) == (echo(s) + o1) + o2;
    }
  }

  /** Cancelling two blocks at once is cancelling one after the other, as long as the first
      reference block is as long as the first microphone block. */
  lemma BlocksJoin<P>(c: Config<P>, s: State<P>, m1: seq<Sample>, m2: seq<Sample>, r1: seq<Sample>, r2: seq<Sample>)
    requires |r1| == |m1|
    ensures var (t1, o1) := Cancel(c, s, m1, r1);
            var (t2, o2) := Cancel(c, t1, m2, r2);
            Cancel(c, s, m1 + m2, r1 + r2) == (t2, o1 + o2)
  {
    assert Upto(r1, |m1|) == r1;
    assert Upto(r1 + r2, |m1 + m2|) == r1 + Upto(r2, |m2|);
    FoldSplit(Ticker(c), Echoer(), s, m1, m2, r1, Upto(r2, |m2|));
    if |m2| < |r2| {
      assert (r1 + r2)[|m1 + m2|..] == r2[|m2|..];
    }
  }

  // ----- The invariant -----

  lemma PushKeeps<P>(c: Config<P>, s: State<P>, xs: seq<Sample>)
    requires Inv(c, s)
    ensures Inv(c, Push(c, s, xs))
  {
  }

  lemma FlushKeeps<P(!new)>(c: Config<P>, s: State<P>)
    requires Sound(c) && Inv(c, s.(partial := [])) && |s.partial| <= c.frame
    ensures Inv(c, Flush(c, s))
  {
    assert c.frame * (s.frames + 1) == c.frame * s.frames + c.frame;
  }

  lemma TickKeeps<P(!new)>(c: Config<P>, s: State<P>, m: Sample, r: seq<Sample>)
    requires Sound(c) && Inv(c, s)
    ensures Inv(c, Tick(c, s, m, r))
  {
    PushKeeps(c, s, r);
    FlushKeeps(c, Fill(Push(c, s, r), [m]));
  }

  lemma {:induction false} SamplesKeep<P(!new)>(c: Config<P>, s: State<P>, mic: seq<Sample>, ref: seq<Sample>)
    requires Sound(c) && Inv(c, s)
    ensures Inv(c, Samples(c, s, mic, ref).0) && |Samples(c, s, mic, ref).1| == |mic|
    decreases |mic|
  {
    if mic != [] {
      TickKeeps(c, s, mic[0], Head(ref));
      SamplesKeep(c, Tick(c, s, mic[0], Head(ref)), mic[1..], Tail(ref));
    }
  }

  /** One sample out for every sample in, and no reference sample unaccounted for. */
  lemma CancelKeeps<P(!new)>(c: Config<P>, s: State<P>, mic: seq<Sample>, ref: seq<Sample>)
    requires Sound(c) && Inv(c, s)
    ensures Inv(c, Cancel(c, s, mic, ref).0) && |Cancel(c, s, mic, ref).1| == |mic|
  {
    SamplesKeep(c, s, mic, Upto(ref, |mic|));
    if |mic| < |ref| {
      PushKeeps(c, Samples(c, s, mic, Upto(ref, |mic|)).0, ref[|mic|..]);
    }
  }

  // ----- A chunk inside one frame is its samples one by one -----

  lemma LastTwice(q: seq<Sample>, x: seq<Sample>, cap: nat)
    ensures Last(Last(q, cap) + x, cap) == Last(q + x, cap)
  {
  }

  lemma PushTwice<P>(c: Config<P>, s: State<P>, a: seq<Sample>, b: seq<Sample>)
    requires |s.queue| <= c.cap && |a| + |b| <= c.cap
    ensures Push(c, Push(c, s, a), b) == Push(c, s, a + b)
  {
    BadAppend(a, b);
    QueueTwice(s.queue, a, b, c.cap);
    ExcessTwice(|s.queue|, |a|, |b|, c.cap);
    var once := Push(c, s, a);
    assert Last(a, c.cap) == a && Last(b, c.cap) == b && Last(a + b, c.cap) == a + b;
    assert |once.queue| == |s.queue| + |a| - Excess(|s.queue| + |a|, c.cap);
  }

  lemma ExcessTwice(n: nat, a: nat, b: nat, cap: nat)
    ensures Excess(n + a, cap) + Excess(n + a - Excess(n + a, cap) + b, cap) == Excess(n + a + b, cap)
  {
  }

  lemma QueueTwice(queue: seq<Sample>, a: seq<Sample>, b: seq<Sample>, cap: nat)
    ensures Last(Last(queue + CleanAll(a), cap) + CleanAll(b), cap) == Last(queue + CleanAll(a + b), cap)
  {
    assert queue + CleanAll(a + b) == (queue + CleanAll(a)) + CleanAll(b);
    LastTwice(queue + CleanAll(a), CleanAll(b), cap);
  }

  lemma PushNothing<P>(c: Config<P>, s: State<P>)
    requires |s.queue| <= c.cap
    ensures Push(c, s, []) == s
  {
    assert s.queue + CleanAll([]) == s.queue;
  }

  /** What the code does with a chunk: push its reference samples, fill its microphone samples,
      and process when the frame is full. */
  function Chunk<P>(c: Config<P>, s: State<P>, mic: seq<Sample>, ref: seq<Sample>): State<P> {
    Flush(c, Fill(Push(c, s, ref), mic))
  }

  lemma FillTwice<P>(c: Config<P>, s: State<P>, a: seq<Sample>, b: seq<Sample>, r: seq<Sample>)
    ensures Fill(Fill(s, a), b) == Fill(s, a + b)
    ensures Push(c, Fill(s, a), r) == Fill(Push(c, s, r), a)
  {
    BadAppend(a, b);
    assert s.partial + CleanAll(a) + CleanAll(b) == s.partial + CleanAll(a + b);
  }

  lemma SamplesStep<P>(c: Config<P>, s: State<P>, mic: seq<Sample>, ref: seq<Sample>)
    requires mic != []
    ensures var (t, out) := Samples(c, Tick(c, s, mic[0], Head(ref)), mic[1..], Tail(ref));
            Samples(c, s, mic, ref) == (t, Echo(s) + out)
  {
  }

  /** Pushing and filling sample by sample is pushing and filling at once. */
  lemma ChunkStep<P>(c: Config<P>, s: State<P>, m: Sample, mic: seq<Sample>, r: seq<Sample>, ref: seq<Sample>)
    requires |s.queue| <= c.cap && |r| + |ref| <= c.cap
    ensures Chunk(c, Fill(Push(c, s, r), [m]), mic, ref) == Chunk(c, s, [m] + mic, r + ref)
  {
    var pushed := Push(c, s, r);
    FillTwice(c, pushed, [m], mic, ref);
    PushTwice(c, s, r, ref);
    FillTwice(c, Push(c, s, r + ref), [m], mic, []);
  }

  lemma {:induction false} ChunkIsSamples<P(!new)>(c: Config<P>, s: State<P>, mic: seq<Sample>, ref: seq<Sample>)
    requires Sound(c) && Inv(c, s) && |ref| <= |mic| && 0 < |mic| <= c.frame - |s.partial|
    ensures Samples(c, s, mic, ref) == (Chunk(c, s, mic, ref), s.out[|s.partial|..|s.partial| + |mic|])
    decreases |mic|
  {
    var r := Head(ref);
    var next := Tick(c, s, mic[0], r);
    SamplesStep(c, s, mic, ref);
    if |mic| == 1 {
      assert mic == [mic[0]] && ref == r && mic[1..] == [];
      assert Echo(s) == [s.out[|s.partial|]];
      assert s.out[|s.partial|..|s.partial| + 1] == Echo(s) + [];
    } else {
      NextInFrame(c, s, mic, ref);
      TickKeeps(c, s, mic[0], r);
      ChunkIsSamples(c, next, mic[1..], Tail(ref));
    }
  }

  lemma NextInFrame<P>(c: Config<P>, s: State<P>, mic: seq<Sample>, ref: seq<Sample>)
    requires Inv(c, s) && c.frame < c.cap && |ref| <= |mic| && 1 < |mic| <= c.frame - |s.partial|
    ensures var next := Tick(c, s, mic[0], Head(ref));
            && next.out == s.out && |next.partial| == |s.partial| + 1
            && Chunk(c, next, mic[1..], Tail(ref)) == Chunk(c, s, mic, ref)
            && Echo(s) + s.out[|s.partial| + 1..|s.partial| + |mic|] == s.out[|s.partial|..|s.partial| + |mic|]
  {
    var r := Head(ref);
    assert [mic[0]] + mic[1..] == mic && r + Tail(ref) == ref;
    ChunkStep(c, s, mic[0], mic[1..], r, Tail(ref));
    assert Tick(c, s, mic[0], r) == Fill(Push(c, s, r), [mic[0]]);
  }

  lemma ChunkKeeps<P(!new)>(c: Config<P>, s: State<P>, mic: seq<Sample>, ref: seq<Sample>)
    requires Sound(c) && Inv(c, s) && |ref| <= |mic| && 0 < |mic| <= c.frame - |s.partial|
    ensures Inv(c, Chunk(c, s, mic, ref))
  {
    ChunkIsSamples(c, s, mic, ref);
    SamplesKeep(c, s, mic, ref);
  }

  /** The block up to j + k, from the block up to j and the chunk after it. */
  lemma NextChunk<P(!new)>(c: Config<P>, s: State<P>, mic: seq<Sample>, ref: seq<Sample>, j: nat, k: nat,
                           t: State<P>, o: seq<Sample>)
    requires Sound(c) && Inv(c, s) && j + k <= |mic| && k > 0
    requires Samples(c, s, mic[..j], Upto(ref, j)) == (t, o) && k <= c.frame - |t.partial|
    ensures Inv(c, t) && |o| == j
    ensures Samples(c, s, mic[..j + k], Upto(ref, j + k))
            == (Chunk(c, t, mic[j..j + k], Between(ref, j, j + k)), o + t.out[|t.partial|..|t.partial| + k])
  {
    var m, r := mic[j..j + k], Between(ref, j, j + k);
    assert mic[..j + k] == mic[..j] + m;
    assert Upto(ref, j + k) == Upto(ref, j) + r;
    JoinChunk(c, s, mic[..j], m, Upto(ref, j), r, t, o);
  }

  lemma JoinChunk<P(!new)>(c: Config<P>, s: State<P>, m1: seq<Sample>, m2: seq<Sample>, r1: seq<Sample>, r2: seq<Sample>,
                           t: State<P>, o: seq<Sample>)
    requires Sound(c) && Inv(c, s) && Samples(c, s, m1, r1) == (t, o)
    requires |r1| == |m1| || (r2 == [] && |r1| <= |m1|)
    requires |r2| <= |m2| && 0 < |m2| <= c.frame - |t.partial|
    ensures Inv(c, t) && |o| == |m1|
    ensures Samples(c, s, m1 + m2, r1 + r2) == (Chunk(c, t, m2, r2), o + t.out[|t.partial|..|t.partial| + |m2|])
  {
    SamplesKeep(c, s, m1, r1);
    FoldSplit(Ticker(c), Echoer(), s, m1, m2, r1, r2);
    ChunkIsSamples(c, t, m2, r2);
  }

  function Between(xs: seq<Sample>, from: nat, to: nat): seq<Sample>
    requires from <= to
  {
    xs[Min(from, |xs|)..Min(to, |xs|)]
  }
}
