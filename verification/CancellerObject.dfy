/**
 The canceller object of packages/webrtc-audio-processing/package/index.js: the reference
 ring wraps in a fixed array, the frames are fixed arrays in the module's memory, and blocks
 are cut into chunks that end with a frame. Proved to compute Canceller.Cancel.
 */
module CancellerObject {
  import opened Bytes
  import opened Canceller

  // ----- The ring as a queue -----

  /** The i-th place from `start` in a ring of `cap` places. */
  function Slot(start: nat, i: nat, cap: nat): nat {
    if start + i < cap then start + i else start + i - cap
  }

  lemma Wrap(a: nat, cap: nat)
    requires a < 2 * cap
    ensures a % cap == if a < cap then a else a - cap
  {
    if a >= cap {
      assert a == cap * 1 + (a - cap);
    }
  }

  /** `a % cap` for a place at most one turn ahead. */
  method Around(a: nat, cap: nat) returns (r: nat)
    requires a < 2 * cap
    ensures r == if a < cap then a else a - cap
  {
    Wrap(a, cap);
    r := a % cap;
  }

  /** The ring holds the samples q, the first one at `start`. */
  ghost predicate Queued(ring: seq<Sample>, start: nat, q: seq<Sample>) {
    && start < |ring| && |q| <= |ring|
    && forall i :: 0 <= i < |q| ==> q[i] == ring[Slot(start, i, |ring|)]
  }

  lemma QueuedWithin(ring: seq<Sample>, start: nat, q: seq<Sample>)
    requires Queued(ring, start, q)
    ensures start < |ring| && |q| <= |ring|
  {
  }

  lemma QueuedDrop(ring: seq<Sample>, start: nat, q: seq<Sample>, over: nat, next: nat)
    requires Queued(ring, start, q) && over <= |q| && next == Slot(start, over, |ring|)
    ensures Queued(ring, next, q[over..])
  {
    forall i | 0 <= i < |q| - over ensures q[over..][i] == ring[Slot(next, i, |ring|)] {
      assert Slot(next, i, |ring|) == Slot(start, over + i, |ring|);
    }
  }

  /** A block written behind the queue, up to the end of the array at most, extends it. */
  lemma QueuedWrite(ring: seq<Sample>, start: nat, q: seq<Sample>, x: seq<Sample>, at: nat)
    requires Queued(ring, start, q) && |q| + |x| <= |ring|
    requires at == Slot(start, |q|, |ring|) && at + |x| <= |ring|
    ensures Queued(ring[..at] + x + ring[at + |x|..], start, q + x)
  {
    var ring' := ring[..at] + x + ring[at + |x|..];
    forall i | 0 <= i < |q + x| ensures (q + x)[i] == ring'[Slot(start, i, |ring'|)] {
      var k := Slot(start, i, |ring|);
      if i < |q| {
        assert k < at || at + |x| <= k;
        assert ring'[k] == ring[k];
      } else {
        assert k == at + (i - |q|);
      }
    }
  }

  /** A block read from the front of the queue, up to the end of the array at most. */
  lemma QueuedRead(ring: seq<Sample>, start: nat, q: seq<Sample>, k: nat)
    requires Queued(ring, start, q) && start + k <= |ring| && k <= |q|
    ensures ring[start..start + k] == q[..k]
  {
    forall i | 0 <= i < k ensures ring[start..start + k][i] == q[i] {
      assert Slot(start, i, |ring|) == start + i || start + i == |ring|;
    }
  }

  lemma SameSlice(a: seq<Sample>, b: seq<Sample>, i: nat, k: nat)
    requires i <= k <= |a| == |b| && a[i..] == b[i..]
    ensures a[i..k] == b[i..k] && a[k..] == b[k..]
  {
    assert a[i..k] == a[i..][..k - i] && b[i..k] == b[i..][..k - i];
    assert a[k..] == a[i..][k - i..] && b[k..] == b[i..][k - i..];
  }

  /** The output o stands in front of what the result held, and the blocks are untouched
      from sample j on. */
  ghost predicate Copied(mic: seq<Sample>, ref: seq<Sample>, result: seq<Sample>, j: nat,
                         m: seq<Sample>, r: seq<Sample>, was: seq<Sample>, o: seq<Sample>) {
    && j <= |m| == |mic| <= |was| == |result| && |r| == |ref| && |o| == j
    && result == o + was[j..]
    && mic[j..] == m[j..] && (j <= |r| ==> ref[j..] == r[j..])
  }

  /** The chunk about to be read is the caller's. */
  lemma CopiedInputs(mic: seq<Sample>, ref: seq<Sample>, result: seq<Sample>, j: nat, k: nat,
                     m: seq<Sample>, r: seq<Sample>, was: seq<Sample>, o: seq<Sample>)
    requires Copied(mic, ref, result, j, m, r, was, o) && j + k <= |mic|
    ensures |mic| <= |result| && mic[j..j + k] == m[j..j + k] && Between(ref, j, j + k) == Between(r, j, j + k)
  {
    SameSlice(mic, m, j, j + k);
    if j <= |r| {
      SameSlice(ref, r, j, Min(j + k, |r|));
    }
  }

  /** What one chunk does to the three arrays, two of which may be the same. */
  lemma CopiedMore(mic: seq<Sample>, ref: seq<Sample>, result: seq<Sample>, j: nat,
                   m: seq<Sample>, r: seq<Sample>, was: seq<Sample>, o: seq<Sample>, piece: seq<Sample>,
                   mic': seq<Sample>, ref': seq<Sample>, result': seq<Sample>)
    requires Copied(mic, ref, result, j, m, r, was, o) && j + |piece| <= |mic|
    requires result' == result[..j] + piece + result[j + |piece|..]
    requires mic' == mic || (mic == result && mic' == result')
    requires ref' == ref || (ref == result && ref' == result')
    ensures Copied(mic', ref', result', j + |piece|, m, r, was, o + piece)
  {
    var i := j + |piece|;
    Placed(result, result', was, o, piece, j);
    SameSlice(mic, m, j, i);
    if i <= |r| {
      SameSlice(ref, r, j, i);
    }
  }

  lemma Placed(before: seq<Sample>, after: seq<Sample>, was: seq<Sample>, o: seq<Sample>, piece: seq<Sample>, j: nat)
    requires |o| == j && j + |piece| <= |was| == |before| && before == o + was[j..]
    requires after == before[..j] + piece + before[j + |piece|..]
    ensures after == o + piece + was[j + |piece|..] && after[j + |piece|..] == before[j + |piece|..]
  {
    assert before[..j] == o && before[j + |piece|..] == was[j + |piece|..];
  }

  // ----- The arrays -----

  /** `finite`: silences the samples that are not finite, and counts them. */
  method CleanInPlace(buf: array<Sample>, from: nat, to: nat) returns (bad: nat)
    requires from <= to <= buf.Length
    modifies buf
    ensures buf[..] == old(buf[..from]) + CleanAll(old(buf[from..to])) + old(buf[to..])
    ensures bad == Bad(old(buf[from..to]))
  {
    bad := 0;
    ghost var was := buf[..];
    var i := from;
    assert was[from..from] == [];
    while i < to
      invariant from <= i <= to
      invariant forall k :: 0 <= k < buf.Length ==> buf[k] == if from <= k < i then Clean(was[k]) else was[k]
      invariant bad == Bad(was[from..i])
    {
      BadAppend(was[from..i], [was[i]]);
      assert was[from..i + 1] == was[from..i] + [was[i]];
      if !buf[i].Finite? {
        buf[i] := SILENCE;
        bad := bad + 1;
      }
      i := i + 1;
    }
    Cleaned(was, buf[..], from, to);
  }

  lemma Cleaned(was: seq<Sample>, now: seq<Sample>, from: nat, to: nat)
    requires from <= to <= |was| == |now|
    requires forall k :: 0 <= k < |was| ==> now[k] == if from <= k < to then Clean(was[k]) else was[k]
    ensures now == was[..from] + CleanAll(was[from..to]) + was[to..]
  {
    assert now[..from] == was[..from] && now[from..to] == CleanAll(was[from..to]) && now[to..] == was[to..];
  }

  /** `set`: copies n samples of src from srcAt to dst at dstAt. */
  method CopyInto(dst: array<Sample>, dstAt: nat, src: array<Sample>, srcAt: nat, n: nat)
    requires dst != src && dstAt + n <= dst.Length && srcAt + n <= src.Length
    modifies dst
    ensures dst[..] == old(dst[..dstAt]) + old(src[srcAt..srcAt + n]) + old(dst[dstAt + n..])
  {
    forall i | 0 <= i < n {
      dst[dstAt + i] := src[srcAt + i];
    }
  }

  /** Copies and cleans: `set` and then `finite` on what was set. */
  method CopyClean(dst: array<Sample>, dstAt: nat, src: array<Sample>, srcAt: nat, n: nat) returns (bad: nat)
    requires dst != src && dstAt + n <= dst.Length && srcAt + n <= src.Length
    modifies dst
    ensures dst[..] == old(dst[..dstAt]) + CleanAll(old(src[srcAt..srcAt + n])) + old(dst[dstAt + n..])
    ensures bad == Bad(old(src[srcAt..srcAt + n]))
  {
    ghost var before, x, after := dst[..dstAt], src[srcAt..srcAt + n], dst[dstAt + n..];
    CopyInto(dst, dstAt, src, srcAt, n);
    assert dst[..dstAt] == before && dst[dstAt..dstAt + n] == x && dst[dstAt + n..] == after;
    bad := CleanInPlace(dst, dstAt, dstAt + n);
  }

  method Store(buf: array<Sample>, xs: seq<Sample>)
    requires |xs| == buf.Length
    modifies buf
    ensures buf[..] == xs
  {
    forall i | 0 <= i < buf.Length {
      buf[i] := xs[i];
    }
  }

  /** `fill(0, n)`. */
  method Silence(buf: array<Sample>, n: nat)
    requires n <= buf.Length
    modifies buf
    ensures buf[..] == old(buf[..n]) + seq(buf.Length - n, _ => SILENCE)
  {
    forall j | n <= j < buf.Length {
      buf[j] := SILENCE;
    }
  }

  /** One piece of the copying loop of `pushRef`: the first k samples of what is left. */
  method WritePiece(ring: array<Sample>, start: nat, at: nat, src: array<Sample>, from: nat, to: nat, k: nat,
                    ghost q: seq<Sample>, ghost rest: seq<Sample>)
    returns (bad: nat)
    requires ring != src && from + k <= to <= src.Length && rest == src[from..to]
    requires Queued(ring[..], start, q) && |q| + k <= ring.Length
    requires at == Slot(start, |q|, ring.Length) && at + k <= ring.Length
    modifies ring
    ensures Queued(ring[..], start, q + CleanAll(rest[..k]))
    ensures bad == Bad(rest[..k]) && src[from + k..to] == rest[k..]
  {
    ghost var was, piece := ring[..], rest[..k];
    assert piece == src[from..from + k];
    QueuedWrite(was, start, q, CleanAll(piece), at);
    bad := CopyClean(ring, at, src, from, k);
    assert ring[..] == was[..at] + CleanAll(piece) + was[at + k..];
  }

  /** The copying loop of `pushRef`: the block goes behind the queue, in at most two pieces. */
  method WriteRing(ring: array<Sample>, start: nat, size: nat, src: array<Sample>, from: nat, to: nat,
                   ghost queue: seq<Sample>, ghost x: seq<Sample>)
    returns (bad: nat)
    requires ring != src && from <= to <= src.Length && x == src[from..to]
    requires Queued(ring[..], start, queue) && |queue| == size && size + |x| <= ring.Length
    modifies ring
    ensures Queued(ring[..], start, queue + CleanAll(x))
    ensures bad == Bad(x)
  {
    var cap := ring.Length;
    var len := to - from;
    var at := Around(start + size, cap);
    var i := 0;
    bad := 0;
    ghost var held, rest, goal := queue, x, queue + CleanAll(x);
    while i < len
      invariant 0 <= i <= len && src[from + i..to] == rest
      invariant at < cap && (i < len ==> at == Slot(start, size + i, cap))
      invariant Queued(ring[..], start, held) && |held| == size + i
      invariant Owed(held, rest, bad, goal, Bad(x))
    {
      var k := Min(len - i, cap - at);
      var next := Around(at + k, cap);
      OwedStep(held, rest, bad, goal, Bad(x), k);
      var more := WritePiece(ring, start, at, src, from + i, to, k, held, rest);
      held, rest := held + CleanAll(rest[..k]), rest[k..];
      bad := bad + more;
      i := i + k;
      at := next;
    }
    assert held + CleanAll([]) == held;
  }

  /** What is still to be written and counted until the ring holds `goal`. */
  ghost predicate Owed(held: seq<Sample>, rest: seq<Sample>, bad: nat, goal: seq<Sample>, total: nat) {
    held + CleanAll(rest) == goal && bad + Bad(rest) == total
  }

  lemma OwedStep(held: seq<Sample>, rest: seq<Sample>, bad: nat, goal: seq<Sample>, total: nat, k: nat)
    requires Owed(held, rest, bad, goal, total) && k <= |rest|
    ensures Owed(held + CleanAll(rest[..k]), rest[k..], bad + Bad(rest[..k]), goal, total)
  {
    assert rest == rest[..k] + rest[k..];
    CleanSplit(rest[..k], rest[k..]);
    BadAppend(rest[..k], rest[k..]);
  }

  lemma CleanSplit(a: seq<Sample>, b: seq<Sample>)
    ensures CleanAll(a + b) == CleanAll(a) + CleanAll(b)
  {
  }

  /** The copying loop of `takeRef`: the first n queued samples, in at most two pieces; where
      the queue starts then. */
  method ReadRing(ring: array<Sample>, from: nat, dst: array<Sample>, n: nat, ghost queue: seq<Sample>)
    returns (start: nat)
    requires ring != dst && Queued(ring[..], from, queue) && n <= |queue| && n <= dst.Length
    modifies dst
    ensures dst[..n] == queue[..n]
    ensures Queued(ring[..], start, queue[n..])
  {
    hide Queued;
    start := from;
    var i := 0;
    ghost var was, left, got := ring[..], queue, [];
    while i < n
      invariant 0 <= i <= n && ring[..] == was
      invariant left == queue[i..] && got == queue[..i]
      invariant dst[..i] == got && Queued(was, start, left)
    {
      QueuedWithin(was, start, left);
      var k := Min(n - i, ring.Length - start);
      var next := Around(start + k, ring.Length);
      QueuedRead(was, start, left, k);
      QueuedDrop(was, start, left, k, next);
      assert ring[start..start + k] == left[..k];
      CopyInto(dst, i, ring, start, k);
      assert dst[..i + k] == got + left[..k];
      got, left := got + left[..k], left[k..];
      i := i + k;
      start := next;
    }
  }

  /** What `pushRef` keeps of the queue and of a block that may be longer than the ring. */
  lemma QueueLast(queue: seq<Sample>, x: seq<Sample>, cap: nat)
    requires |queue| <= cap
    ensures var kept := Last(x, cap);
            var over := Excess(|queue| + |kept|, cap);
            over <= |queue| && queue[over..] + CleanAll(kept) == Last(queue + CleanAll(x), cap)
  {
    var over := Excess(|queue| + |Last(x, cap)|, cap);
    if |x| > cap {
      assert queue[over..] == [];
    } else {
      assert (queue + CleanAll(x))[over..] == queue[over..] + CleanAll(x);
    }
  }

  lemma LastOf(a: seq<Sample>, from: nat, to: nat, cap: nat)
    requires from <= to <= |a|
    ensures Last(a[from..to], cap) == a[if to - from > cap then to - cap else from..to]
    ensures Excess(to - from, cap) == if to - from > cap then to - from - cap else 0
  {
  }

  lemma ExcessOf(n: nat, x: seq<Sample>, cap: nat)
    requires n <= cap
    ensures Excess(n + |Last(x, cap)|, cap) + Excess(|x|, cap) == Excess(n + |x|, cap)
  {
  }

  class Object<P(!new)> {
    const config: Config<P>
    const refRing: array<Sample>
    const mic: array<Sample>
    const ref: array<Sample>
    const out: array<Sample>
    var refStart: nat
    var refSize: nat
    var refDropped: nat
    var refShort: nat
    var nonFinite: nat
    var fill: nat
    var failed: nat
    var processor: P
    var live: bool
    ghost var queue: seq<Sample>
    ghost var pushed: nat
    ghost var taken: nat
    ghost var frames: nat

    ghost predicate Shaped()
      reads this, refRing
    {
      && Sound(config)
      && refRing.Length == config.cap && mic.Length == ref.Length == out.Length == config.frame
      && refRing != mic && refRing != ref && refRing != out && mic != ref && mic != out && ref != out
      && fill <= config.frame && refSize == |queue| && Queued(refRing[..], refStart, queue)
    }

    ghost function Abs(): State<P>
      requires Shaped()
      reads this, refRing, mic, out
    {
      State(processor, queue, mic[..fill], out[..], refDropped, refShort,
            nonFinite, failed, pushed, taken, frames)
    }

    ghost predicate Valid()
      reads this, refRing, mic, out
    {
      Shaped() && Inv(config, Abs())
    }

    ghost predicate Outside(a: array<Sample>)
      reads this
    {
      a != refRing && a != mic && a != ref && a != out
    }

    constructor (config: Config<P>, processor: P)
      requires Sound(config)
      ensures Valid() && live && fresh(refRing) && fresh(mic) && fresh(ref) && fresh(out)
      ensures Abs() == State(processor, [], [], seq(config.frame, _ => SILENCE), 0, 0, 0, 0, 0, 0, 0)
    {
      this.config := config;
      refRing := new Sample[config.cap](_ => SILENCE);
      mic := new Sample[config.frame](_ => SILENCE);
      ref := new Sample[config.frame](_ => SILENCE);
      out := new Sample[config.frame](_ => SILENCE);
      refStart, refSize, fill := 0, 0, 0;
      refDropped, refShort, nonFinite, failed := 0, 0, 0, 0;
      queue, pushed, taken, frames := [], 0, 0, 0;
      this.processor := processor;
      live := true;
    }

    /** Makes room in the ring for n more: its start moves past what is dropped. */
    method MakeRoom(n: nat)
      requires Shaped() && n <= config.cap
      modifies this`refStart, this`refSize, this`refDropped, this`queue
      ensures Shaped()
      ensures var over := Excess(|old(queue)| + n, config.cap);
              over <= |old(queue)| && queue == old(queue)[over..] && refDropped == old(refDropped) + over
    {
      var over := refSize + n - config.cap;
      if over > 0 {
        var next := Around(refStart + over, config.cap);
        QueuedDrop(refRing[..], refStart, queue, over, next);
        refStart := next;
        refSize := refSize - over;
        refDropped := refDropped + over;
        queue := queue[over..];
      }
    }

    method Enqueue(src: array<Sample>, from: nat, to: nat, ghost x: seq<Sample>)
      requires Shaped() && Outside(src) && from <= to <= src.Length && x == src[from..to]
      requires |queue| + |x| <= config.cap
      modifies refRing, this`nonFinite, this`refSize, this`queue
      ensures Shaped() && queue == old(queue) + CleanAll(x) && nonFinite == old(nonFinite) + Bad(x)
    {
      var bad := WriteRing(refRing, refStart, refSize, src, from, to, queue, x);
      nonFinite := nonFinite + bad;
      refSize := refSize + (to - from);
      queue := queue + CleanAll(x);
    }

    /** `pushRef` of the reference samples from..to. */
    method PushRef(src: array<Sample>, from: nat, to: nat)
      requires Shaped() && Outside(src) && from <= to <= src.Length
      modifies refRing, this`nonFinite, this`refSize, this`refStart, this`refDropped, this`pushed, this`queue
      ensures Shaped() && Abs() == Push(config, old(Abs()), old(src[from..to]))
    {
      hide CleanAll, Queued, Bad, Last, Excess, Sound;
      QueuedWithin(refRing[..], refStart, queue);
      var cap := config.cap;
      ghost var before, x := queue, src[from..to];
      QueueLast(before, x, cap);
      ExcessOf(|before|, x, cap);
      LastOf(src[..], from, to, cap);
      var at := from;
      if to - from > cap {
        refDropped := refDropped + (to - from - cap);
        at := to - cap;
      }
      MakeRoom(to - at);
      Enqueue(src, at, to, Last(x, cap));
      pushed := pushed + (to - from);
    }

    /** `takeRef`: the reference frame, silence where too little is queued. */
    method TakeRef()
      requires Shaped()
      modifies ref, this`refSize, this`refStart, this`refShort, this`taken, this`frames, this`queue
      ensures Shaped() && Abs() == Taken(config, old(Abs()))
      ensures ref[..] == RefFrame(config, old(Abs()))
    {
      var n := Min(config.frame, refSize);
      Dequeue(n);
      Silence(ref, n);
      taken := taken + n;
      frames := frames + 1;
      refShort := refShort + (config.frame - n);
    }

    /** The first n queued samples go to the reference frame. */
    method Dequeue(n: nat)
      requires Shaped() && n <= config.frame && n <= refSize
      modifies ref, this`refSize, this`refStart, this`queue
      ensures Shaped() && queue == old(queue)[n..] && ref[..n] == old(queue)[..n]
    {
      refStart := ReadRing(refRing, refStart, ref, n, queue);
      queue := queue[n..];
      refSize := refSize - n;
    }

    /** A full frame goes through the processor. */
    method ProcessFrame()
      requires Shaped() && fill == config.frame
      modifies this, ref, out
      ensures Shaped() && Abs() == Process(config, old(Abs())) && live == old(live)
    {
      ghost var before := Abs();
      TakeRef();
      var r := config.run(processor, mic[..], ref[..]);
      assert mic[..] == before.partial;
      processor := r.next;
      Store(out, r.out);
      if !r.ok {
        failed := failed + 1;
      }
      fill := 0;
    }

    /** The microphone samples of a chunk go behind those already in the frame. */
    method FillMic(src: array<Sample>, from: nat, k: nat)
      requires Shaped() && Outside(src) && from + k <= src.Length && fill + k <= config.frame
      modifies mic, this`fill, this`nonFinite
      ensures Shaped() && fill == old(fill) + k
      ensures Abs() == Fill(old(Abs()), old(src[from..from + k]))
    {
      ghost var had := mic[..fill];
      var bad := CopyClean(mic, fill, src, from, k);
      nonFinite := nonFinite + bad;
      fill := fill + k;
      assert mic[..fill] == had + CleanAll(src[from..from + k]);
    }

    /** The reference samples of a chunk, as far as there are any. */
    method PushPart(refIn: array<Sample>, j: nat, k: nat)
      requires Shaped() && Outside(refIn) && Inv(config, Abs())
      modifies refRing, this`nonFinite, this`refSize, this`refStart, this`refDropped, this`pushed, this`queue
      ensures Shaped() && Abs() == Push(config, old(Abs()), Between(old(refIn[..]), j, j + k))
    {
      if j < refIn.Length {
        assert refIn[j..Min(j + k, refIn.Length)] == Between(refIn[..], j, j + k);
        PushRef(refIn, j, Min(j + k, refIn.Length));
      } else {
        PushNothing(config, Abs());
      }
    }

    /** One chunk of the loop of `cancel`; the output of the last frame is written only after
        the chunk's samples were read, so the arrays may be the same. */
    method CancelChunk(micIn: array<Sample>, refIn: array<Sample>, result: array<Sample>, j: nat, k: nat)
      requires Valid() && Outside(micIn) && Outside(refIn) && Outside(result)
      requires j + k <= micIn.Length && j + k <= result.Length && 0 < k <= config.frame - fill
      modifies this, refRing, mic, ref, out, result
      ensures Valid() && live == old(live)
      ensures Abs() == Chunk(config, old(Abs()), old(micIn[j..j + k]), Between(old(refIn[..]), j, j + k))
      ensures result[..] == old(result[..])[..j] + old(out[fill..fill + k]) + old(result[..])[j + k..]
    {
      ghost var before, m, r := Abs(), micIn[j..j + k], Between(refIn[..], j, j + k);
      ghost var done := result[..][..j] + before.out[fill..fill + k] + result[..][j + k..];
      ChunkKeeps(config, before, m, r);
      PushPart(refIn, j, k);
      FillMic(micIn, j, k);
      CopyInto(result, j, out, fill - k, k);
      assert result[..] == done by {
        assert out[fill - k..fill] == before.out[fill - k..fill];
      }
      assert Abs() == Fill(Push(config, before, r), m);
      if fill == config.frame {
        ProcessFrame();
      }
    }

    /** After j samples: the output so far is in place, and what is still to be read is as it
        was, even if the output goes to one of the inputs. */
    ghost predicate Progress(micIn: array<Sample>, refIn: array<Sample>, result: array<Sample>, j: nat,
                             m: seq<Sample>, r: seq<Sample>, was: seq<Sample>, o: seq<Sample>)
      reads micIn, refIn, result
    {
      Copied(micIn[..], refIn[..], result[..], j, m, r, was, o)
    }

    method Advance(micIn: array<Sample>, refIn: array<Sample>, result: array<Sample>, j: nat, k: nat,
                   ghost m: seq<Sample>, ghost r: seq<Sample>, ghost was: seq<Sample>, ghost o: seq<Sample>,
                   ghost piece: seq<Sample>)
      requires Valid() && Outside(micIn) && Outside(refIn) && Outside(result)
      requires Progress(micIn, refIn, result, j, m, r, was, o)
      requires j + k <= micIn.Length && 0 < k <= config.frame - fill && piece == out[fill..fill + k]
      modifies this, refRing, mic, ref, out, result
      ensures Valid() && live == old(live)
      ensures Abs() == Chunk(config, old(Abs()), m[j..j + k], Between(r, j, j + k))
      ensures Progress(micIn, refIn, result, j + k, m, r, was, o + piece)
    {
      hide Chunk, Queued, Copied, Between, Inv;
      ghost var mb, rb, before := micIn[..], refIn[..], result[..];
      CopiedInputs(mb, rb, before, j, k, m, r, was, o);
      CancelChunk(micIn, refIn, result, j, k);
      CopiedMore(mb, rb, before, j, m, r, was, o, piece, micIn[..], refIn[..], result[..]);
    }

    /** The object is in the state after j samples of the block, and o is their output. */
    ghost predicate Reached(s: State<P>, m: seq<Sample>, r: seq<Sample>, j: nat, o: seq<Sample>)
      reads this, refRing, mic, out
    {
      Valid() && Inv(config, s) && j <= |m| && Samples(config, s, m[..j], Upto(r, j)) == (Abs(), o)
    }

    method NextPart(micIn: array<Sample>, refIn: array<Sample>, result: array<Sample>, j: nat, ghost s: State<P>,
                    ghost m: seq<Sample>, ghost r: seq<Sample>, ghost was: seq<Sample>, ghost o: seq<Sample>)
      returns (j': nat, ghost o': seq<Sample>)
      requires Reached(s, m, r, j, o) && Progress(micIn, refIn, result, j, m, r, was, o)
      requires Outside(micIn) && Outside(refIn) && Outside(result) && j < micIn.Length
      modifies this, refRing, mic, ref, out, result
      ensures j < j' <= micIn.Length && live == old(live)
      ensures Reached(s, m, r, j', o') && Progress(micIn, refIn, result, j', m, r, was, o')
    {
      assert |m| == micIn.Length;
      hide Progress, Samples, Chunk;
      var k := Min(config.frame - fill, micIn.Length - j);
      ghost var t := Abs();
      ghost var piece := t.out[|t.partial|..|t.partial| + k];
      NextChunk(config, s, m, r, j, k, t, o);
      Advance(micIn, refIn, result, j, k, m, r, was, o, piece);
      j', o' := j + k, o + piece;
    }

    /** The loop of `cancel`: chunks that end with the block or with a frame. */
    method RunChunks(micIn: array<Sample>, refIn: array<Sample>, result: array<Sample>)
      requires Valid() && Outside(micIn) && Outside(refIn) && Outside(result) && micIn.Length <= result.Length
      modifies this, refRing, mic, ref, out, result
      ensures Valid() && live == old(live)
      ensures var n := micIn.Length;
              && (Abs(), result[..n]) == Samples(config, old(Abs()), old(micIn[..]), Upto(old(refIn[..]), n))
              && result[n..] == old(result[n..])
              && (n < refIn.Length ==> refIn[n..] == old(refIn[n..]))
    {
      var n := micIn.Length;
      ghost var s, m, r, was := Abs(), micIn[..], refIn[..], result[..];
      ghost var o: seq<Sample> := [];
      var j: nat := 0;
      while j < n
        invariant j <= n && live == old(live)
        invariant Reached(s, m, r, j, o) && Progress(micIn, refIn, result, j, m, r, was, o)
      {
        j, o := NextPart(micIn, refIn, result, j, s, m, r, was, o);
      }
      assert m[..n] == m;
    }

    /** `cancel`. Without a target the output goes to a new array; the target may be the
        microphone block or the reference block itself. */
    method CancelBlock(micIn: array<Sample>, refIn: array<Sample>, target: array?<Sample>)
      returns (r: Result<array<Sample>, Failure>)
      requires Valid() && Outside(micIn) && Outside(refIn) && (target != null ==> Outside(target))
      modifies this, refRing, mic, ref, out, if target == null then {} else {target}
      ensures Valid() && live == old(live)
      ensures r == Err(Destroyed) <==> !old(live)
      ensures r == Err(TargetTooShort) <==> old(live) && target != null && target.Length < micIn.Length
      ensures r.Err? ==> Abs() == old(Abs())
      ensures r.Ok? ==>
                var n := micIn.Length;
                && (if target == null then fresh(r.value) && r.value.Length == n else r.value == target)
                && (Abs(), r.value[..n]) == Cancel(config, old(Abs()), old(micIn[..]), old(refIn[..]))
                && (target != null ==> r.value[n..] == old(target[n..]))
    {
      hide Samples, Push;
      if !live {
        return Err(Destroyed);
      }
      var n := micIn.Length;
      var result;
      if target == null {
        result := new Sample[n](_ => SILENCE);
      } else {
        if target.Length < n {
          return Err(TargetTooShort);
        }
        result := target;
      }
      RunChunks(micIn, refIn, result);
      if n < refIn.Length {
        PushKeeps(config, Abs(), refIn[n..]);
        assert refIn[n..refIn.Length] == refIn[n..];
        PushRef(refIn, n, refIn.Length);
      }
      return Ok(result);
    }
  }

  datatype Failure = Destroyed | TargetTooShort
}
