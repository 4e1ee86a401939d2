/**
 Response bodies of crates/wasix-net/src/http/wire.rs: lines, the three framings as a reader
 that may be handed any number of bytes at a time, and what those reads amount to.
 */
module HttpBody {
  import opened Bytes
  import opened Text
  import Utf8

  const MAX_LINE := 65536
  const TWO_TO_THE_64 := 0x1_0000_0000_0000_0000

  datatype IoError = UnexpectedEof | InvalidData

  /** What reading part of a stream gave, and the stream behind it. */
  datatype Scan<T> = Scan(result: Result<T, IoError>, rest: seq<byte>)

  // ----- Lines -----

  function NewlineAt(s: seq<byte>): (r: nat)
    ensures r <= |s| && (forall k :: 0 <= k < r ==> s[k] != 10) && (r < |s| ==> s[r] == 10)
  {
    if s == [] then 0 else if s[0] == 10 then 0 else 1 + NewlineAt(s[1..])
  }

  lemma NewlineUnique(s: seq<byte>, k: nat)
    requires k <= |s| && (forall j :: 0 <= j < k ==> s[j] != 10) && (k < |s| ==> s[k] == 10)
    ensures NewlineAt(s) == k
  {
  }

  /** How many bytes a line takes off the stream, its line break included. */
  function Reach(s: seq<byte>): (n: nat)
    ensures n <= |s| && n <= MAX_LINE && (s != [] ==> 0 < n)
  {
    var k := NewlineAt(s);
    if k < |s| && k < MAX_LINE then k + 1 else if |s| < MAX_LINE then |s| else MAX_LINE
  }

  predicate LineBreak(b: byte) {
    b == 10 || b == 13
  }

  function Chomp(line: seq<byte>): seq<byte> {
    if line != [] && LineBreak(line[|line| - 1]) then Chomp(line[..|line| - 1]) else line
  }

  /** The text of the bytes one line took. */
  function LineOf(taken: seq<byte>): Result<string, IoError> {
    if taken == [] then Err(UnexpectedEof)
    else if taken[|taken| - 1] != 10 then Err(if |taken| >= MAX_LINE then InvalidData else UnexpectedEof)
    else
      match Utf8.Decode(Chomp(taken))
      case None => Err(InvalidData)
      case Some(text) => Ok(text)
  }

  /** `read_line`. */
  function ReadLine(s: seq<byte>): (r: Scan<string>)
    ensures |r.rest| <= |s| && (r.result.Ok? ==> |r.rest| < |s|)
    ensures r.result == Err(UnexpectedEof) ==> r.rest == []
  {
    Scan(LineOf(s[..Reach(s)]), s[Reach(s)..])
  }

  // ----- Chunk sizes and trailers -----

  function SizeOf(line: string): Option<nat> {
    ParseUnsigned(Trim(Before(line, ';')), 16, TWO_TO_THE_64)
  }

  function SizeLine(s: seq<byte>): (r: Scan<nat>)
    ensures r.result.Ok? ==> |r.rest| < |s|
    ensures r.result == Err(UnexpectedEof) ==> r.rest == []
  {
    var line := ReadLine(s);
    match line.result
    case Err(e) => Scan(Err(e), line.rest)
    case Ok(text) =>
      match SizeOf(text)
      case None => Scan(Err(InvalidData), line.rest)
      case Some(n) => Scan(Ok(n), line.rest)
  }

  /** The size of the next chunk, behind the line break of the chunk before. */
  function NextSize(first: bool, s: seq<byte>): (r: Scan<nat>)
    ensures r.result.Ok? ==> |r.rest| < |s|
    ensures r.result == Err(UnexpectedEof) ==> r.rest == []
  {
    if first then SizeLine(s)
    else
      var line := ReadLine(s);
      match line.result
      case Err(e) => Scan(Err(e), line.rest)
      case Ok(text) => if text != "" then Scan(Err(InvalidData), line.rest) else SizeLine(line.rest)
  }

  /** The trailer lines up to the empty one. */
  function Trailers(s: seq<byte>): (r: Scan<()>)
    ensures r.result == Err(UnexpectedEof) ==> r.rest == []
    decreases |s|
  {
    var line := ReadLine(s);
    match line.result
    case Err(e) => Scan(Err(e), line.rest)
    case Ok(text) => if text == "" then Scan(Ok(()), line.rest) else Trailers(line.rest)
  }

  // ----- A body as a whole -----

  datatype State = Done | Length(left: nat) | Chunk(left: nat, first: bool) | Eof

  /** What becomes of a body: all of it and the stream behind it, or what came before the
      connection ended, or before something that is no body. */
  datatype Outcome = Complete(body: seq<byte>, rest: seq<byte>) | Cut(body: seq<byte>) | Bad(body: seq<byte>)

  function After(data: seq<byte>, o: Outcome): Outcome {
    match o
    case Complete(b, rest) => Complete(data + b, rest)
    case Cut(b) => Cut(data + b)
    case Bad(b) => Bad(data + b)
  }

  function Failed(e: IoError): Outcome {
    if e == UnexpectedEof then Cut([]) else Bad([])
  }

  /** The body that a state and the whole remaining stream stand for. */
  function Decode(state: State, s: seq<byte>): Outcome
    decreases |s|
  {
    match state
    case Done => Complete([], s)
    case Eof => Complete(s, [])
    case Length(left) => if |s| < left then Cut(s) else Complete(s[..left], s[left..])
    case Chunk(left, first) =>
      if 0 < left then
        if |s| < left then Cut(s) else After(s[..left], Decode(Chunk(0, false), s[left..]))
      else
        var size := NextSize(first, s);
        match size.result
        case Err(e) => Failed(e)
        case Ok(n) =>
          if 0 < n then Decode(Chunk(n, false), size.rest)
          else
            match Trailers(size.rest).result
            case Err(e) => Failed(e)
            case Ok(_) => Complete([], Trailers(size.rest).rest)
  }

  // ----- A body read by read -----

  datatype Event = Data(bytes: seq<byte>) | End | Fault(error: IoError)

  /** The transport hands over some of what is there, at least one byte. */
  predicate Takes(s: seq<byte>, most: nat, e: Event, t: seq<byte>) {
    e.Data? && 0 < |e.bytes| <= most && s == e.bytes + t
  }

  predicate Faults(x: IoError, s: seq<byte>, a: State, e: Event, b: State, t: seq<byte>) {
    e == Fault(x) && b == a && t == s
  }

  /** One call of `read` with room for `room` bytes, from state `a` on stream `s` to `b` on `t`. */
  predicate Reads(a: State, s: seq<byte>, room: nat, e: Event, b: State, t: seq<byte>) {
    match a
    case Done => e == End && b == Done && t == s
    case Eof =>
      if s == [] then e == End && b == Done && t == [] else Takes(s, room, e, t) && b == Eof
    case Length(left) =>
      if s == [] then Faults(UnexpectedEof, s, a, e, b, t)
      else Takes(s, Min(room, left), e, t) && b == if |e.bytes| == left then Done else Length(left - |e.bytes|)
    case Chunk(left, first) =>
      if 0 < left then ReadsChunk(left, s, a, room, e, b, t)
      else
        var size := NextSize(first, s);
        match size.result
        case Err(x) => Faults(x, size.rest, a, e, b, t)
        case Ok(n) =>
          if 0 < n then ReadsChunk(n, size.rest, a, room, e, b, t)
          else
            var end := Trailers(size.rest);
            match end.result
            case Err(x) => Faults(x, end.rest, a, e, b, t)
            case Ok(_) => e == End && b == Done && t == end.rest
  }

  /** Data of a chunk of which `left` bytes are missing; the state moves only when some came. */
  predicate ReadsChunk(left: nat, s: seq<byte>, a: State, room: nat, e: Event, b: State, t: seq<byte>) {
    if s == [] then Faults(UnexpectedEof, s, a, e, b, t)
    else Takes(s, Min(room, left), e, t) && b == Chunk(left - |e.bytes|, false)
  }

  function Given(e: Event): seq<byte> {
    if e.Data? then e.bytes else []
  }

  /** A length that reached zero has been replaced by `Done`. */
  predicate Valid(a: State) {
    a.Length? ==> 0 < a.left
  }

  lemma SplitChunk(left: nat, first: bool, d: seq<byte>, t: seq<byte>)
    requires 0 < |d| <= left
    ensures Decode(Chunk(left, first), d + t) == After(d, Decode(Chunk(left - |d|, false), t))
  {
    hide NextSize, Trailers;
    var s := d + t;
    if left == |d| {
      assert s[..left] == d && s[left..] == t;
    } else if left <= |s| {
      var m := left - |d|;
      assert s[..left] == d + t[..m] && s[left..] == t[m..];
      AfterAfter(d, t[..m], Decode(Chunk(0, false), t[m..]));
    }
  }

  lemma AfterAfter(a: seq<byte>, b: seq<byte>, o: Outcome)
    ensures After(a, After(b, o)) == After(a + b, o)
  {
    assert a + (b + o.body) == a + b + o.body;
  }

  lemma SplitLength(left: nat, d: seq<byte>, t: seq<byte>)
    requires 0 < |d| <= left
    ensures Decode(Length(left), d + t)
            == After(d, Decode(if |d| == left then Done else Length(left - |d|), t))
  {
    var s := d + t;
    if left <= |s| {
      var m := left - |d|;
      assert s[..left] == d + t[..m] && s[left..] == t[m..];
      assert left == |d| ==> t[..m] == [] && t[m..] == t;
    }
  }

  lemma NothingAfter(o: Outcome)
    ensures After([], o) == o
  {
    assert [] + o.body == o.body;
  }

  lemma NoLine()
    ensures ReadLine([]) == Scan(Err(UnexpectedEof), [])
  {
    assert Reach([]) == 0;
  }

  lemma NoSize(first: bool)
    ensures NextSize(first, []) == Scan(Err(UnexpectedEof), [])
  {
    hide ReadLine, SizeOf;
    NoLine();
  }

  lemma CutStays(a: State)
    requires Valid(a) && a != Done && a != Eof
    ensures Decode(a, []) == Cut([])
  {
    if a.Chunk? && a.left == 0 {
      NoSize(a.first);
    }
  }

  /** What a read that moved on leaves stands for the rest of the body. */
  lemma ReadAgrees(a: State, s: seq<byte>, room: nat, e: Event, b: State, t: seq<byte>)
    requires Valid(a) && Reads(a, s, room, e, b, t) && e != Fault(InvalidData)
    ensures Valid(b) && Decode(a, s) == After(Given(e), Decode(b, t))
    ensures e == End ==> b == Done
  {
    hide NextSize, Trailers;
    match e {
      case Data(d) => DataAgrees(a, s, room, e, b, t);
      case End => EndAgrees(a, s, room, e, b, t);
      case Fault(x) =>
        assert x == UnexpectedEof;
        FaultAgrees(a, s, room, e, b, t);
    }
  }

  lemma EndAgrees(a: State, s: seq<byte>, room: nat, e: Event, b: State, t: seq<byte>)
    requires Reads(a, s, room, e, b, t) && e == End
    ensures b == Done && Decode(a, s) == Complete([], t) == After([], Decode(b, t))
  {
    hide NextSize, Trailers;
    NothingAfter(Complete([], t));
  }

  lemma FaultAgrees(a: State, s: seq<byte>, room: nat, e: Event, b: State, t: seq<byte>)
    requires Valid(a) && Reads(a, s, room, e, b, t) && e == Fault(UnexpectedEof)
    ensures b == a && t == [] && Decode(a, s) == Cut([]) == After([], Decode(b, t))
  {
    hide NextSize;
    NothingAfter(Cut([]));
    CutStays(a);
    if a.Chunk? && a.left == 0 {
      var size := NextSize(a.first, s);
      if size.result.Ok? && 0 < size.result.value {
        assert Decode(Chunk(size.result.value, false), []) == Cut([]);
      }
    }
  }

  lemma DecodeSized(first: bool, s: seq<byte>)
    requires NextSize(first, s).result.Ok? && 0 < NextSize(first, s).result.value
    ensures Decode(Chunk(0, first), s) == Decode(Chunk(NextSize(first, s).result.value, false), NextSize(first, s).rest)
  {
    hide NextSize, Trailers;
  }

  lemma DataAgrees(a: State, s: seq<byte>, room: nat, e: Event, b: State, t: seq<byte>)
    requires Valid(a) && Reads(a, s, room, e, b, t) && e.Data?
    ensures Valid(b) && Decode(a, s) == After(e.bytes, Decode(b, t))
  {
    hide NextSize, Trailers;
    var d := e.bytes;
    match a {
      case Eof =>
      case Length(left) => SplitLength(left, d, t);
      case Chunk(left, first) =>
        hide Decode;
        if 0 < left {
          SplitChunk(left, first, d, t);
        } else {
          DecodeSized(first, s);
          SplitChunk(NextSize(first, s).result.value, false, d, t);
        }
    }
  }

  lemma MalformedIsBad(a: State, s: seq<byte>, room: nat, e: Event, b: State, t: seq<byte>)
    requires Reads(a, s, room, e, b, t) && e == Fault(InvalidData)
    ensures Decode(a, s) == Bad([])
  {
    hide NextSize, Trailers;
  }

  // ----- Whole runs -----

  /** A call: its room, what it gave, and the state and stream it left. */
  datatype Call = Call(room: nat, event: Event, state: State, stream: seq<byte>)

  predicate Runs(a: State, s: seq<byte>, calls: seq<Call>)
    decreases |calls|
  {
    calls == []
    || (var c := calls[0]; 0 < c.room && Reads(a, s, c.room, c.event, c.state, c.stream)
                           && Runs(c.state, c.stream, calls[1..]))
  }

  function Delivered(calls: seq<Call>): seq<byte> {
    if calls == [] then [] else Given(calls[0].event) + Delivered(calls[1..])
  }

  function FinalState(a: State, calls: seq<Call>): State {
    if calls == [] then a else calls[|calls| - 1].state
  }

  function FinalStream(s: seq<byte>, calls: seq<Call>): seq<byte> {
    if calls == [] then s else calls[|calls| - 1].stream
  }

  /** However a stream that holds a well-formed body, or the beginning of one, is cut into
      reads, what they gave so far and what is left make up that body, and no call finds the
      stream malformed. */
  lemma {:induction false} RunDelivers(a: State, s: seq<byte>, calls: seq<Call>)
    requires Valid(a) && Runs(a, s, calls) && !Decode(a, s).Bad?
    ensures Decode(a, s) == After(Delivered(calls), Decode(FinalState(a, calls), FinalStream(s, calls)))
    ensures forall k :: 0 <= k < |calls| ==> calls[k].event != Fault(InvalidData)
    decreases |calls|
  {
    hide Decode, Reads;
    if calls == [] {
      NothingAfter(Decode(a, s));
    } else {
      var c, rest := calls[0], calls[1..];
      if c.event == Fault(InvalidData) {
        MalformedIsBad(a, s, c.room, c.event, c.state, c.stream);
      }
      ReadAgrees(a, s, c.room, c.event, c.state, c.stream);
      RunDelivers(c.state, c.stream, rest);
      AfterAfter(Given(c.event), Delivered(rest), Decode(FinalState(a, calls), FinalStream(s, calls)));
    }
  }

  /** A run that reported the end of a complete body gave exactly it and stopped right behind. */
  lemma CleanEnd(a: State, s: seq<byte>, calls: seq<Call>)
    requires Valid(a) && Runs(a, s, calls) && !Decode(a, s).Bad?
    requires calls != [] && calls[|calls| - 1].event == End
    ensures Decode(a, s) == Complete(Delivered(calls), FinalStream(s, calls))
  {
    RunDelivers(a, s, calls);
    EndIsDone(a, s, calls);
    assert Delivered(calls) + [] == Delivered(calls);
  }

  lemma {:induction false} EndIsDone(a: State, s: seq<byte>, calls: seq<Call>)
    requires Runs(a, s, calls) && calls != [] && calls[|calls| - 1].event == End
    ensures FinalState(a, calls) == Done
    decreases |calls|
  {
    if |calls| > 1 {
      EndIsDone(calls[0].state, calls[0].stream, calls[1..]);
    }
  }

  /** A body cut short never ends cleanly: calls that give no data report the early end. */
  lemma {:induction false} CutNeverEnds(a: State, s: seq<byte>, calls: seq<Call>)
    requires Valid(a) && Runs(a, s, calls) && Decode(a, s).Cut?
    ensures forall k :: 0 <= k < |calls| ==> calls[k].event.Data? || calls[k].event == Fault(UnexpectedEof)
    ensures Delivered(calls) <= Decode(a, s).body
    decreases |calls|
  {
    hide Reads, NextSize, Trailers;
    RunDelivers(a, s, calls);
    assert Delivered(calls) <= After(Delivered(calls), Decode(FinalState(a, calls), FinalStream(s, calls))).body;
    if calls != [] {
      var c := calls[0];
      ReadAgrees(a, s, c.room, c.event, c.state, c.stream);
      CutNeverEnds(c.state, c.stream, calls[1..]);
      assert forall k :: 1 <= k < |calls| ==> calls[k] == calls[1..][k - 1];
      assert c.event != End;
      assert c.event.Fault? ==> c.event == Fault(c.event.error) && c.event.error == UnexpectedEof;
    }
  }

  /** A complete body never fails: calls that give no data report its end. */
  lemma {:induction false} WholeNeverFails(a: State, s: seq<byte>, calls: seq<Call>)
    requires Valid(a) && Runs(a, s, calls) && Decode(a, s).Complete?
    ensures forall k :: 0 <= k < |calls| ==> calls[k].event.Data? || calls[k].event == End
    decreases |calls|
  {
    hide Reads, NextSize, Trailers;
    if calls != [] {
      var c := calls[0];
      if c.event.Fault? {
        FaultIsNoBody(a, s, c.room, c.event, c.state, c.stream);
      }
      ReadAgrees(a, s, c.room, c.event, c.state, c.stream);
      WholeNeverFails(c.state, c.stream, calls[1..]);
      assert forall k :: 1 <= k < |calls| ==> calls[k] == calls[1..][k - 1];
    }
  }

  lemma FaultIsNoBody(a: State, s: seq<byte>, room: nat, e: Event, b: State, t: seq<byte>)
    requires Valid(a) && Reads(a, s, room, e, b, t) && e.Fault?
    ensures !Decode(a, s).Complete?
  {
    hide Reads, Decode;
    assert e == Fault(e.error);
    if e.error == UnexpectedEof {
      FaultAgrees(a, s, room, e, b, t);
    } else {
      MalformedIsBad(a, s, room, e, b, t);
    }
  }

  /** Reading makes progress: more calls than there are bytes include one that gave none. */
  lemma {:induction false} RunsOut(a: State, s: seq<byte>, calls: seq<Call>)
    requires Runs(a, s, calls) && |s| < |calls|
    ensures exists k :: 0 <= k < |calls| && !calls[k].event.Data?
    decreases |calls|
  {
    var c := calls[0];
    if c.event.Data? {
      DataTakes(a, s, c.room, c.event, c.state, c.stream);
      RunsOut(c.state, c.stream, calls[1..]);
      var k :| 0 <= k < |calls[1..]| && !calls[1..][k].event.Data?;
      assert !calls[k + 1].event.Data?;
    }
  }

  lemma DataTakes(a: State, s: seq<byte>, room: nat, e: Event, b: State, t: seq<byte>)
    requires Reads(a, s, room, e, b, t) && e.Data?
    ensures |t| < |s|
  {
  }
}
