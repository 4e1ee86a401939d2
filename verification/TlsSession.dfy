/**
 A server session of packages/tls-engine/src/slicc_tls_engine.c as a value: the two byte buffers
 between the socket and Mbed TLS, and the gate that reads the ClientHello and holds Mbed TLS
 back until the caller has chosen a certificate or refused the client.

 Mbed TLS itself is an arbitrary caller of `bio_recv` and `bio_send`: a script of transfers.
 */
module TlsSession {
  import opened Bytes
  import opened ClientHello
  import opened HelloParser

  const OUT_CAP := 64 * 1024
  const ALPN_SIZE := 256

  /** 0, SELECT_WAIT, SELECT_PAUSED, SELECT_DONE and SELECT_REFUSED. */
  datatype Selection = Off | Wait | Paused | Done | Rejected

  datatype Error = NoError | BadArgument | ConnectionEof | AlertError(alert: Alert)

  /** `alert_error`. */
  function ErrorOf(alert: Alert): Error {
    match alert
    case RecordOverflow => AlertError(HandshakeFailure)
    case AccessDenied => AlertError(HandshakeFailure)
    case _ => AlertError(alert)
  }

  function AlertCode(alert: Alert): byte {
    match alert
    case UnexpectedMessage => 10
    case RecordOverflow => 22
    case HandshakeFailure => 40
    case IllegalParameter => 47
    case AccessDenied => 49
    case DecodeError => 50
    case ProtocolVersion => 70
    case InternalError => 80
    case UnrecognizedName => 112
    case NoApplicationProtocol => 120
  }

  /** The fatal alert record `refuse` queues. */
  function AlertRecord(alert: Alert): seq<byte> {
    [21, 3, 3, 0, 2, 2, AlertCode(alert)]
  }

  // ----- The session as a value -----

  /** What happened to a session so far: the bytes its caller fed and took, the bytes Mbed TLS
      received, all bytes queued for the client, how many alert records `refuse` queued, and
      how often a call was let through to Mbed TLS's handshake, read or write. */
  datatype Trace = Trace(fed: seq<byte>, delivered: seq<byte>, sent: seq<byte>, taken: seq<byte>,
                         alerts: nat, entered: nat)

  datatype State = State(
    input: seq<byte>,
    output: seq<byte>,
    eof: bool,
    select: Selection,
    refused: Error,
    sni: seq<byte>,
    alpn: seq<byte>,
    leaf: Option<nat>,      // the number of certificates of the session's leaf
    chosen: seq<byte>,      // the protocol the caller chose, empty for none
    lastError: Error,
    trace: Trace)

  function Init(select: bool, leaf: Option<nat>): State {
    State([], [], false, if select then Wait else Off, NoError, [], [], leaf, [], NoError,
          Trace([], [], [], [], 0, 0))
  }

  /** `bio_recv`. */
  function Receive(s: State, len: nat): State {
    var n := Min(len, |s.input|);
    s.(input := s.input[n..], trace := s.trace.(delivered := s.trace.delivered + s.input[..n]))
  }

  function Queue(s: State, bytes: seq<byte>): State {
    s.(output := s.output + bytes, trace := s.trace.(sent := s.trace.sent + bytes))
  }

  /** `bio_send`: as much as fits. */
  function Send(s: State, bytes: seq<byte>): State
    requires |s.output| <= OUT_CAP
  {
    Queue(s, bytes[..Min(|bytes|, OUT_CAP - |s.output|)])
  }

  /** `tls_feed`: as much as fits. */
  function Feed(s: State, bytes: seq<byte>): State
    requires |s.input| <= IN_CAP
  {
    Supply(s, bytes[..Min(|bytes|, IN_CAP - |s.input|)])
  }

  function Supply(s: State, part: seq<byte>): State {
    s.(input := s.input + part, trace := s.trace.(fed := s.trace.fed + part))
  }

  /** `tls_out_take`. */
  function Take(s: State, max: nat): State {
    var n := Min(max, |s.output|);
    s.(output := s.output[n..], trace := s.trace.(taken := s.trace.taken + s.output[..n]))
  }

  /** What Mbed TLS does to the buffers in one call. */
  datatype Transfer = Recv(len: nat) | Emit(bytes: seq<byte>)

  function Transfers(s: State, script: seq<Transfer>): State
    requires |s.output| <= OUT_CAP
    decreases |script|
  {
    if script == [] then s
    else
      var next := match script[0]
        case Recv(len) => Receive(s, len)
        case Emit(bytes) => Send(s, bytes);
      Transfers(next, script[1..])
  }

  /** `refuse`. */
  function Refuse(s: State, alert: Alert): State
    requires |s.output| <= OUT_CAP
  {
    var q := if OUT_CAP - |s.output| >= 7
             then var q := Queue(s, AlertRecord(alert)); q.(trace := q.trace.(alerts := q.trace.alerts + 1))
             else s;
    q.(select := Rejected, refused := ErrorOf(alert), lastError := ErrorOf(alert))
  }

  datatype Gate = Open | MoreInput | AtHello | Stopped(error: Error)

  /** The gate in SELECT_WAIT. */
  function ReadHello(s: State): (State, Gate)
    requires |s.output| <= OUT_CAP
  {
    match AssembleInput(s.input)
    case NeedMore =>
      if s.eof then (s.(lastError := ConnectionEof), Stopped(ConnectionEof)) else (s, MoreInput)
    case Refused(alert) => RefuseHello(s, alert)
    case Hello(m) =>
      match ParseHello(if |m| >= 4 then m[4..] else [])
      case Err(alert) => RefuseHello(s, alert)
      case Ok(offer) => (s.(select := Paused, sni := offer.sni, alpn := offer.alpn), AtHello)
  }

  function RefuseHello(s: State, alert: Alert): (State, Gate)
    requires |s.output| <= OUT_CAP
  {
    (Refuse(s.(sni := [], alpn := []), alert), Stopped(ErrorOf(alert)))
  }

  /** `select_gate`. */
  function SelectGate(s: State): (State, Gate)
    requires |s.output| <= OUT_CAP
  {
    match s.select
    case Off => (s, Open)
    case Done => (s, Open)
    case Rejected => (s.(lastError := s.refused), Stopped(s.refused))
    case Paused => (s, AtHello)
    case Wait => ReadHello(s)
  }

  function Enter(s: State): State {
    s.(trace := s.trace.(entered := s.trace.entered + 1))
  }

  /** The gated calls: `tls_handshake`, `tls_read` and `tls_write`. */
  function Gated(s: State, script: seq<Transfer>): State
    requires |s.output| <= OUT_CAP
  {
    var (g, gate) := SelectGate(s);
    if gate != Open then g else Transfers(Enter(g), script)
  }

  /** Whether `tls_server_select` accepts its arguments: the chosen leaf and protocol. */
  predicate Selectable(s: State, leaf: Option<nat>, alpn: seq<byte>)
    requires WellFormedNames(s.alpn)
  {
    var chosen := if leaf.Some? then leaf else s.leaf;
    && s.select == Paused && chosen.Some? && chosen.value != 0
    && (alpn != [] ==> |alpn| < ALPN_SIZE && 0 !in alpn && Offered(s.alpn, alpn))
  }

  /** `tls_server_select`. The two flags are what Mbed TLS answers when it is told the
      certificate and the protocol. */
  function Select(s: State, leaf: Option<nat>, alpn: seq<byte>, certOk: bool, alpnOk: bool): State
    requires |s.output| <= OUT_CAP && WellFormedNames(s.alpn)
  {
    if !Selectable(s, leaf, alpn) then s.(lastError := BadArgument)
    else
      var l := s.(leaf := if leaf.Some? then leaf else s.leaf);
      if !certOk then Refuse(l, InternalError)
      else
        var c := if alpn != [] then l.(chosen := alpn) else l;
        if alpn != [] && !alpnOk then Refuse(c, InternalError) else c.(select := Done)
  }

  /** The alerts a caller may refuse a client with. */
  function Permitted(code: int): Option<Alert> {
    if code == 40 then Some(HandshakeFailure)
    else if code == 49 then Some(AccessDenied)
    else if code == 80 then Some(InternalError)
    else if code == 112 then Some(UnrecognizedName)
    else if code == 120 then Some(NoApplicationProtocol)
    else None
  }

  /** `tls_server_refuse`. */
  function ServerRefuse(s: State, code: int): State
    requires |s.output| <= OUT_CAP
  {
    if s.select != Paused || Permitted(code).None? then s.(lastError := BadArgument)
    else Refuse(s, Permitted(code).value).(lastError := s.lastError)
  }

  // ----- Runs -----

  datatype Call =
    | FeedBytes(bytes: seq<byte>)
    | FeedEof
    | TakeOutput(max: nat)
    | Poll(script: seq<Transfer>)  // tls_handshake, tls_read or tls_write
    | ServerSelects(leaf: Option<nat>, alpn: seq<byte>, certOk: bool, alpnOk: bool)
    | ServerRefuses(code: int)
    | Close(sends: seq<seq<byte>>)

  function SendAll(s: State, sends: seq<seq<byte>>): State
    requires |s.output| <= OUT_CAP
    decreases |sends|
  {
    if sends == [] then s else SendAll(Send(s, sends[0]), sends[1..])
  }

  /** What holds of a session between any two calls. */
  ghost predicate Inv(s: State) {
    && |s.input| <= IN_CAP && |s.output| <= OUT_CAP
    // every byte is accounted for, in order, in both directions
    && s.trace.fed == s.trace.delivered + s.input
    && s.trace.sent == s.trace.taken + s.output
    // reading the hello consumed nothing, and Mbed TLS has not run
    && (s.select in {Wait, Paused, Rejected} ==> s.trace.delivered == [] && s.trace.entered == 0)
    && (s.trace.alerts == 0 || (s.trace.alerts == 1 && s.select == Rejected))
    && (s.select == Rejected ==> s.refused.AlertError?)
    && WellFormedNames(s.alpn)
    && (s.select == Wait ==> s.sni == [] && s.alpn == [])
    && (s.select in {Wait, Paused} ==> s.chosen == [])
    && (s.select in {Paused, Done} ==> HelloRead(s))
    && (s.select == Done && s.chosen != [] ==> Offered(s.alpn, s.chosen))
  }

  /** The name and the protocols kept are those of the ClientHello that begins the bytes fed. */
  ghost predicate HelloRead(s: State) {
    var a := Assemble([], s.trace.fed);
    a.Hello? && |a.message| >= 4 && ParseHello(a.message[4..]) == Ok(Offer(s.sni, s.alpn))
  }

  function Step(s: State, call: Call): State
    requires |s.output| <= OUT_CAP && |s.input| <= IN_CAP && WellFormedNames(s.alpn)
  {
    match call
    case FeedBytes(bytes) => Feed(s, bytes)
    case FeedEof => s.(eof := true)
    case TakeOutput(max) => Take(s, max)
    case Poll(script) => Gated(s, script)
    case ServerSelects(leaf, alpn, certOk, alpnOk) => Select(s, leaf, alpn, certOk, alpnOk)
    case ServerRefuses(code) => ServerRefuse(s, code)
    case Close(sends) => SendAll(s, sends)
  }

  /** The selection only moves on: a session that serves without selecting stays so, and one
      that has chosen or refused never goes back. */
  predicate MovesOn(a: Selection, b: Selection) {
    match a
    case Off => b == Off
    case Wait => b != Off
    case Paused => b in {Paused, Done, Rejected}
    case Done => b == Done
    case Rejected => b == Rejected
  }

  // ----- Every call keeps the invariant -----

  lemma {:induction false} TransfersKeep(s: State, script: seq<Transfer>)
    requires Inv(s) && s.select in {Off, Done}
    ensures var t := Transfers(s, script);
            Inv(t) && t == s.(input := t.input, output := t.output, trace := t.trace)
            && t.trace.fed == s.trace.fed && t.trace.taken == s.trace.taken
    decreases |script|
  {
    if script != [] {
      var next := match script[0]
        case Recv(len) => Receive(s, len)
        case Emit(bytes) => Send(s, bytes);
      TransferKeeps(s, script[0]);
      TransfersKeep(next, script[1..]);
    }
  }

  lemma TransferKeeps(s: State, t: Transfer)
    requires Inv(s) && s.select in {Off, Done}
    ensures Inv(match t case Recv(len) => Receive(s, len) case Emit(bytes) => Send(s, bytes))
  {
    match t
    case Recv(len) => ReceiveKeeps(s, len);
    case Emit(bytes) => SendKeeps(s, bytes);
  }

  lemma ReceiveKeeps(s: State, len: nat)
    requires Inv(s) && s.select in {Off, Done}
    ensures Inv(Receive(s, len))
  {
    var n := Min(len, |s.input|);
    assert s.trace.delivered + s.input == (s.trace.delivered + s.input[..n]) + s.input[n..];
  }

  lemma ReceiveNothing(s: State, len: nat)
    requires s.input == []
    ensures Receive(s, len) == s
  {
    assert s.trace.delivered + [] == s.trace.delivered;
  }

  lemma QueueKeeps(s: State, part: seq<byte>)
    requires Inv(s) && |s.output| + |part| <= OUT_CAP
    ensures Inv(Queue(s, part))
  {
    assert s.trace.sent + part == s.trace.taken + (s.output + part);
  }

  lemma SendKeeps(s: State, bytes: seq<byte>)
    requires Inv(s)
    ensures Inv(Send(s, bytes))
  {
    assert |s.output| <= OUT_CAP;
    hide Inv;
    QueueKeeps(s, bytes[..Min(|bytes|, OUT_CAP - |s.output|)]);
  }

  lemma {:induction false} SendAllKeeps(s: State, sends: seq<seq<byte>>)
    requires Inv(s)
    ensures var t := SendAll(s, sends);
            Inv(t) && t == s.(output := t.output, trace := t.trace) && t.trace == s.trace.(sent := t.trace.sent)
    decreases |sends|
  {
    if sends != [] {
      SendKeeps(s, sends[0]);
      SendAllKeeps(Send(s, sends[0]), sends[1..]);
    }
  }

  lemma FeedKeeps(s: State, bytes: seq<byte>)
    requires Inv(s)
    ensures Inv(Feed(s, bytes))
  {
    assert |s.input| <= IN_CAP;
    hide Inv;
    SupplyKeeps(s, bytes[..Min(|bytes|, IN_CAP - |s.input|)]);
  }

  lemma SupplyKeeps(s: State, part: seq<byte>)
    requires Inv(s) && |s.input| + |part| <= IN_CAP
    ensures Inv(Supply(s, part))
  {
    assert s.trace.fed + part == s.trace.delivered + (s.input + part);
    if s.select in {Paused, Done} {
      HelloStaysRead(s, Supply(s, part), part);
    }
  }

  lemma HelloStaysRead(s: State, t: State, part: seq<byte>)
    requires HelloRead(s) && t.trace.fed == s.trace.fed + part && t.sni == s.sni && t.alpn == s.alpn
    ensures HelloRead(t)
  {
    AssembleStable([], s.trace.fed, part);
  }

  lemma TakeKeeps(s: State, max: nat)
    requires Inv(s)
    ensures Inv(Take(s, max))
  {
    var n := Min(max, |s.output|);
    assert s.output == s.output[..n] + s.output[n..];
    assert s.trace.taken + s.output == (s.trace.taken + s.output[..n]) + s.output[n..];
  }

  lemma RefuseKeeps(s: State, alert: Alert)
    requires Inv(s) && s.select in {Wait, Paused}
    ensures Inv(Refuse(s, alert))
  {
    var record := AlertRecord(alert);
    assert s.trace.sent + record == s.trace.taken + (s.output + record);
  }

  lemma MessageLength(have: seq<byte>, rest: seq<byte>)
    ensures Assemble(have, rest).Hello? ==> |Assemble(have, rest).message| >= 4
    decreases |rest|
  {
    match Next(have, rest)
    case Err(_) =>
    case Ok(body) => MessageLength(have + rest[5..5 + body], rest[5 + body..]);
  }

  lemma ParsedNames(p: seq<byte>)
    ensures ParseHello(p).Ok? ==> WellFormedNames(ParseHello(p).value.alpn)
  {
    match BeforeExtensions(p)
    case None =>
    case Some(rest) =>
      if |rest| >= 2 {
        ParsedExtensionNames(rest[2..], None, None);
      }
  }

  lemma {:induction false} ParsedExtensionNames(p: seq<byte>, sni: Option<seq<byte>>, alpn: Option<seq<byte>>)
    requires alpn.Some? ==> WellFormedNames(alpn.value)
    ensures var r := ParseExtensions(p, sni, alpn);
            r.Ok? ==> WellFormedNames(r.value.alpn)
    decreases |p|
  {
    if |p| >= 4 && |p| - 4 >= Be16(p, 2) {
      var n := Be16(p, 2);
      match ParseExtension(Be16(p, 0), p[4..4 + n], sni, alpn)
      case Err(_) =>
      case Ok((sni', alpn')) => ParsedExtensionNames(p[4 + n..], sni', alpn');
    }
  }

  lemma RefuseHelloKeeps(s: State, alert: Alert)
    requires Inv(s) && s.select == Wait
    ensures Inv(RefuseHello(s, alert).0)
  {
    RefuseKeeps(s.(sni := [], alpn := []), alert);
  }

  lemma ReadHelloKeeps(s: State)
    requires Inv(s) && s.select == Wait
    ensures Inv(ReadHello(s).0) && ReadHello(s).1 != Open
  {
    assert s.trace.delivered + s.input == s.input;
    match AssembleInput(s.input)
    case NeedMore =>
    case Refused(alert) =>
      RefuseHelloKeeps(s, alert);
    case Hello(m) =>
      MessageLength([], s.input);
      ParsedNames(m[4..]);
      match ParseHello(m[4..])
      case Err(alert) => RefuseHelloKeeps(s, alert);
      case Ok(offer) => PausedKeeps(s, m, offer);
  }

  lemma PausedKeeps(s: State, m: seq<byte>, offer: Offer)
    requires Inv(s) && s.select == Wait && |m| >= 4 && WellFormedNames(offer.alpn)
    requires Assemble([], s.trace.fed) == Hello(m) && ParseHello(m[4..]) == Ok(offer)
    ensures Inv(s.(select := Paused, sni := offer.sni, alpn := offer.alpn))
  {
  }

  lemma GateKeeps(s: State)
    requires Inv(s)
    ensures Inv(SelectGate(s).0)
    ensures SelectGate(s).1 == Open <==> s.select in {Off, Done}
    ensures SelectGate(s).1 == Open ==> SelectGate(s).0 == s
  {
    if s.select == Wait {
      ReadHelloKeeps(s);
    }
  }

  lemma EnterKeeps(s: State)
    requires Inv(s) && s.select in {Off, Done}
    ensures Inv(Enter(s))
  {
  }

  lemma GatedKeeps(s: State, script: seq<Transfer>)
    requires Inv(s)
    ensures Inv(Gated(s, script))
    ensures s.select in {Off, Done} ==> Gated(s, script) == Transfers(Enter(s), script)
    ensures s.select !in {Off, Done} ==> Gated(s, script) == SelectGate(s).0
  {
    GateKeeps(s);
    if s.select in {Off, Done} {
      EnterKeeps(s);
      TransfersKeep(Enter(s), script);
    }
  }

  lemma SelectKeeps(s: State, leaf: Option<nat>, alpn: seq<byte>, certOk: bool, alpnOk: bool)
    requires Inv(s)
    ensures Inv(Select(s, leaf, alpn, certOk, alpnOk))
  {
    if Selectable(s, leaf, alpn) {
      var l := s.(leaf := if leaf.Some? then leaf else s.leaf);
      var c := if alpn != [] then l.(chosen := alpn) else l;
      RefusedKeeps(s, l);
      RefusedKeeps(s, c);
      SelectedKeeps(s, c);
    }
  }

  lemma RefusedKeeps(s: State, c: State)
    requires Inv(s) && s.select == Paused && c == s.(leaf := c.leaf, chosen := c.chosen)
    ensures Inv(Refuse(c, InternalError))
  {
    RefuseKeeps(s, InternalError);
    assert Refuse(c, InternalError) == Refuse(s, InternalError).(leaf := c.leaf, chosen := c.chosen);
  }

  lemma SelectedKeeps(s: State, c: State)
    requires Inv(s) && s.select == Paused && c == s.(leaf := c.leaf, chosen := c.chosen)
    requires c.chosen != [] && c.chosen != s.chosen ==> Offered(s.alpn, c.chosen)
    requires s.chosen == []
    ensures Inv(c.(select := Done))
  {
  }

  lemma ServerRefuseKeeps(s: State, code: int)
    requires Inv(s)
    ensures Inv(ServerRefuse(s, code))
  {
    if s.select == Paused && Permitted(code).Some? {
      RefuseKeeps(s, Permitted(code).value);
    }
  }

  lemma StepKeeps(s: State, call: Call)
    requires Inv(s)
    ensures Inv(Step(s, call))
  {
    match call
    case FeedBytes(bytes) => FeedKeeps(s, bytes);
    case FeedEof =>
    case TakeOutput(max) => TakeKeeps(s, max);
    case Poll(script) => GatedKeeps(s, script);
    case ServerSelects(leaf, alpn, certOk, alpnOk) => SelectKeeps(s, leaf, alpn, certOk, alpnOk);
    case ServerRefuses(code) => ServerRefuseKeeps(s, code);
    case Close(sends) => SendAllKeeps(s, sends);
  }

  function Run(s: State, calls: seq<Call>): State
    requires Inv(s)
    decreases |calls|
  {
    if calls == [] then s else StepKeeps(s, calls[0]); Run(Step(s, calls[0]), calls[1..])
  }

  lemma InitKeeps(select: bool, leaf: Option<nat>)
    ensures Inv(Init(select, leaf))
  {
  }

  /** What was fed, delivered, sent and taken only grows at its end. */
  ghost predicate Grows(s: State, t: State) {
    && s.trace.fed <= t.trace.fed && s.trace.delivered <= t.trace.delivered
    && s.trace.sent <= t.trace.sent && s.trace.taken <= t.trace.taken
  }

  /** The selection moves on, a refusal keeps its error, and a choice keeps the hello's offer. */
  ghost predicate Follows(s: State, t: State) {
    && MovesOn(s.select, t.select)
    && (s.select == Rejected ==> t.refused == s.refused)
    && (s.select in {Paused, Done, Rejected} ==> t.sni == s.sni && t.alpn == s.alpn)
    && (s.select == Done ==> t.chosen == s.chosen && t.leaf == s.leaf)
  }

  lemma {:induction false} TransfersGrow(s: State, script: seq<Transfer>)
    requires Inv(s) && s.select in {Off, Done}
    ensures Grows(s, Transfers(s, script))
    decreases |script|
  {
    if script != [] {
      var next := match script[0]
        case Recv(len) => Receive(s, len)
        case Emit(bytes) => Send(s, bytes);
      TransferKeeps(s, script[0]);
      TransfersGrow(next, script[1..]);
    }
  }

  lemma {:induction false} SendAllGrows(s: State, sends: seq<seq<byte>>)
    requires Inv(s)
    ensures Grows(s, SendAll(s, sends))
    decreases |sends|
  {
    if sends != [] {
      SendKeeps(s, sends[0]);
      SendAllGrows(Send(s, sends[0]), sends[1..]);
    }
  }

  lemma RefuseHelloFollows(s: State, alert: Alert)
    requires |s.output| <= OUT_CAP && s.select == Wait
    ensures Follows(s, RefuseHello(s, alert).0) && Grows(s, RefuseHello(s, alert).0)
  {
  }

  lemma ReadHelloFollows(s: State)
    requires |s.output| <= OUT_CAP && s.select == Wait
    ensures Follows(s, ReadHello(s).0) && Grows(s, ReadHello(s).0)
  {
    hide AssembleInput, ParseHello, RefuseHello;
    match AssembleInput(s.input)
    case NeedMore =>
    case Refused(alert) => RefuseHelloFollows(s, alert);
    case Hello(m) =>
      match ParseHello(if |m| >= 4 then m[4..] else [])
      case Err(alert) => RefuseHelloFollows(s, alert);
      case Ok(_) =>
  }

  lemma GateFollows(s: State)
    requires Inv(s)
    ensures Follows(s, SelectGate(s).0) && Grows(s, SelectGate(s).0)
  {
    assert |s.output| <= OUT_CAP;
    hide Inv, ReadHello;
    if s.select == Wait {
      ReadHelloFollows(s);
    }
  }

  lemma PollFollows(s: State, script: seq<Transfer>)
    requires Inv(s)
    ensures Follows(s, Gated(s, script)) && Grows(s, Gated(s, script))
  {
    GatedKeeps(s, script);
    if s.select in {Off, Done} {
      EnterKeeps(s);
      TransfersKeep(Enter(s), script);
      TransfersGrow(Enter(s), script);
    } else {
      GateFollows(s);
    }
  }

  lemma RefuseFollows(s: State, c: State, alert: Alert)
    requires Inv(s) && s.select == Paused && c == s.(leaf := c.leaf, chosen := c.chosen)
    ensures Follows(s, Refuse(c, alert)) && Grows(s, Refuse(c, alert))
  {
  }

  lemma SelectFollows(s: State, leaf: Option<nat>, alpn: seq<byte>, certOk: bool, alpnOk: bool)
    requires Inv(s)
    ensures Follows(s, Select(s, leaf, alpn, certOk, alpnOk)) && Grows(s, Select(s, leaf, alpn, certOk, alpnOk))
  {
    if Selectable(s, leaf, alpn) {
      var l := s.(leaf := if leaf.Some? then leaf else s.leaf);
      var c := if alpn != [] then l.(chosen := alpn) else l;
      RefuseFollows(s, l, InternalError);
      RefuseFollows(s, c, InternalError);
    }
  }

  lemma ServerRefuseFollows(s: State, code: int)
    requires Inv(s)
    ensures Follows(s, ServerRefuse(s, code)) && Grows(s, ServerRefuse(s, code))
  {
    if s.select == Paused && Permitted(code).Some? {
      RefuseFollows(s, s, Permitted(code).value);
    }
  }

  lemma StepFollows(s: State, call: Call)
    requires Inv(s)
    ensures Follows(s, Step(s, call)) && Grows(s, Step(s, call))
  {
    match call
    case FeedBytes(_) =>
    case FeedEof =>
    case TakeOutput(_) =>
    case Poll(script) => PollFollows(s, script);
    case ServerSelects(leaf, alpn, certOk, alpnOk) => SelectFollows(s, leaf, alpn, certOk, alpnOk);
    case ServerRefuses(code) => ServerRefuseFollows(s, code);
    case Close(sends) =>
      SendAllKeeps(s, sends);
      SendAllGrows(s, sends);
  }

  /** Over any sequence of calls: every byte fed is either delivered to Mbed TLS or still in
      the buffer, in order, and likewise outwards; Mbed TLS runs in a selecting session only
      after the choice; at most one alert is ever queued by a refusal. */
  lemma {:induction false} RunKeeps(s: State, calls: seq<Call>)
    requires Inv(s)
    ensures Inv(Run(s, calls)) && Grows(s, Run(s, calls))
    decreases |calls|
  {
    if calls != [] {
      StepKeeps(s, calls[0]);
      StepFollows(s, calls[0]);
      RunKeeps(Step(s, calls[0]), calls[1..]);
    }
  }

  /** A choice or a refusal is never left. */
  lemma {:induction false} RunFollows(s: State, calls: seq<Call>)
    requires Inv(s)
    ensures Follows(s, Run(s, calls))
    decreases |calls|
  {
    if calls != [] {
      StepKeeps(s, calls[0]);
      StepFollows(s, calls[0]);
      RunFollows(Step(s, calls[0]), calls[1..]);
    }
  }

  /** A selecting session in which Mbed TLS received a byte has been through the whole
      selection: it was told the offer of the ClientHello that begins the stream, and the
      protocol chosen, if any, is one the client listed; and Mbed TLS's bytes begin with
      that same ClientHello, since reading it consumed nothing. */
  lemma DeliveredAfterChoice(leaf: Option<nat>, calls: seq<Call>)
    requires Inv(Init(true, leaf))
    requires Run(Init(true, leaf), calls).trace.delivered != [] || Run(Init(true, leaf), calls).trace.entered != 0
    ensures var t := Run(Init(true, leaf), calls);
            && t.select == Done && HelloRead(t)
            && (t.chosen != [] ==> WellFormedNames(t.alpn) && Offered(t.alpn, t.chosen))
            && t.trace.delivered <= t.trace.fed
  {
    InitKeeps(true, leaf);
    RunKeeps(Init(true, leaf), calls);
    RunFollows(Init(true, leaf), calls);
    SelectingStays(Init(true, leaf), calls);
  }

  lemma {:induction false} SelectingStays(s: State, calls: seq<Call>)
    requires Inv(s) && s.select != Off
    ensures Run(s, calls).select != Off
    decreases |calls|
  {
    if calls != [] {
      StepKeeps(s, calls[0]);
      StepFollows(s, calls[0]);
      SelectingStays(Step(s, calls[0]), calls[1..]);
    }
  }

  // ----- A fragmented ClientHello, fed in any pieces -----

  /** Until the last byte of the ClientHello is fed, whatever else is called, the session keeps
      waiting and has kept every byte; the end of input is remembered, and nothing else. */
  lemma {:induction false} WaitsForHello(s: State, calls: seq<Call>, fs: seq<Fragment>, m: seq<byte>)
    requires Inv(s) && s.select == Wait
    requires IsHello(m) && AllValid(fs) && Carried(fs) == m && |Wire(fs)| <= 40 * 1024
    requires Run(s, calls).trace.fed < Wire(fs)
    ensures Run(s, calls).select == Wait && Run(s, calls).input == Run(s, calls).trace.fed
    ensures Run(s, calls).eof <==> s.eof || FeedEof in calls
    decreases |calls|
  {
    hide Inv, Assemble, ParseHello, HelloRead;
    if calls == [] {
      InputOfWait(s);
    } else {
      hide Step, SelectGate, Wire, Carried, AllValid, IsHello, Follows;
      StepParts(s);
      var next := Step(s, calls[0]);
      StepKeeps(s, calls[0]);
      StepFollows(s, calls[0]);
      RunKeeps(next, calls[1..]);
      InputOfWait(s);
      WaitGate(s, fs, m);
      WaitStep(s, calls[0]);
      WaitsForHello(next, calls[1..], fs, m);
      assert FeedEof in calls <==> calls[0] == FeedEof || FeedEof in calls[1..] by {
        assert calls == [calls[0]] + calls[1..];
      }
    }
  }

  lemma StepParts(s: State)
    requires Inv(s)
    ensures |s.output| <= OUT_CAP && |s.input| <= IN_CAP && WellFormedNames(s.alpn)
  {
  }

  /** The gate while the ClientHello is not complete. */
  lemma WaitGate(s: State, fs: seq<Fragment>, m: seq<byte>)
    requires Inv(s) && s.select == Wait && IsHello(m) && AllValid(fs) && Carried(fs) == m && |Wire(fs)| <= 40 * 1024
    requires s.trace.fed < Wire(fs)
    ensures |s.output| <= OUT_CAP
    ensures SelectGate(s) == if s.eof then (s.(lastError := ConnectionEof), Stopped(ConnectionEof)) else (s, MoreInput)
  {
    hide Inv, Assemble, ParseHello, HelloRead, IsHello, AllValid, Carried, Wire, AssembleInput;
    InputOfWait(s);
    assert s.input == Wire(fs)[..|s.input|];
    ReassemblesInput(fs, m, |s.input|, []);
  }

  lemma WaitStep(s: State, call: Call)
    requires Inv(s) && s.select == Wait
    requires SelectGate(s) == if s.eof then (s.(lastError := ConnectionEof), Stopped(ConnectionEof)) else (s, MoreInput)
    ensures Step(s, call).select == Wait && (Step(s, call).eof <==> s.eof || call == FeedEof)
  {
    if call.Close? {
      SendAllKeeps(s, call.sends);
    }
  }

  lemma InputOfWait(s: State)
    requires Inv(s) && s.select == Wait
    ensures s.input == s.trace.fed && |s.input| <= IN_CAP && |s.output| <= OUT_CAP
  {
    assert s.trace.delivered + s.input == s.input;
  }

  /** Once the last byte is there, the next gated call stops at the ClientHello with exactly
      what the client offered, whatever was fed behind it. */
  lemma StopsAtHello(s: State, fs: seq<Fragment>, m: seq<byte>, more: seq<byte>)
    requires AllValid(fs) && Inv(s) && s.select == Wait && s.trace.fed == Wire(fs) + more
    requires IsHello(m) && Carried(fs) == m && ParseHello(m[4..]).Ok?
    ensures SelectGate(s).1 == AtHello
    ensures var offer := ParseHello(m[4..]).value;
            SelectGate(s).0 == s.(select := Paused, sni := offer.sni, alpn := offer.alpn)
  {
    InputOfWait(s);
    hide Inv, AllValid, Carried, Wire, ParseHello, AssembleInput;
    ReassemblesInput(fs, m, 0, more);
  }

  /** A ClientHello under its handshake header: its type and its length in three bytes. */
  function HelloMessage(m: Message): seq<byte>
    requires m.Valid() && |m.Serialize()| + 4 <= 32 * 1024
  {
    var n := |m.Serialize()|;
    [1, n / 65536, n / 256 % 256, n % 256] + m.Serialize()
  }

  lemma HelloMessageIsHello(m: Message)
    requires m.Valid() && |m.Serialize()| + 4 <= 32 * 1024
    ensures IsHello(HelloMessage(m)) && HelloMessage(m)[4..] == m.Serialize()
  {
    hide Message.Serialize;
    var n := |m.Serialize()|;
    assert n == (n / 65536 * 256 + n / 256 % 256) * 256 + n % 256;
  }

  /** What the session knows of a client whose ClientHello it has stopped at. */
  ghost predicate StoppedAt(t: State, m: Message) {
    && t.select == Paused && t.sni == OfferedName(ExtensionsOf(m))
    && Names(OfferedProtocols(ExtensionsOf(m))) && t.alpn == NameBytes(OfferedProtocols(ExtensionsOf(m)))
    && t.trace.delivered == [] && t.input == t.trace.fed
  }

  lemma FedUp(s: State, piece: seq<byte>, wire: seq<byte>)
    requires Inv(s) && s.select == Wait && |wire| <= IN_CAP
    requires s.trace.fed < wire <= s.trace.fed + piece
    ensures var f := Feed(s, piece);
            && Inv(f) && f.select == Wait && wire <= f.trace.fed && f.trace.delivered == [] && f.input == f.trace.fed
  {
    FeedKeeps(s, piece);
    InputOfWait(s);
    InputOfWait(Feed(s, piece));
    var k := Min(|piece|, IN_CAP - |s.input|);
    assert wire <= s.trace.fed + piece[..k];
    assert Feed(s, piece).trace.delivered == [];
  }

  /** A stop at the ClientHello whose message reads as this offer. */
  lemma PollStops(f: State, script: seq<Transfer>, fs: seq<Fragment>, h: seq<byte>, offer: Offer)
    requires Inv(f) && f.select == Wait
    requires IsHello(h) && AllValid(fs) && Carried(fs) == h && Wire(fs) <= f.trace.fed
    requires ParseHello(h[4..]) == Ok(offer)
    ensures Gated(f, script) == f.(select := Paused, sni := offer.sni, alpn := offer.alpn)
  {
    hide Inv, Wire, Carried, AllValid, ParseHello, SelectGate, IsHello, Transfers;
    InputOfWait(f);
    var more := f.trace.fed[|Wire(fs)|..];
    assert f.trace.fed == Wire(fs) + more;
    StopsAtHello(f, fs, h, more);
  }

  lemma HelloReadsAs(m: Message)
    requires m.Valid() && Offers(m) && |m.Serialize()| + 4 <= 32 * 1024
    ensures var h, es := HelloMessage(m), ExtensionsOf(m);
            && IsHello(h) && Names(OfferedProtocols(es))
            && ParseHello(h[4..]) == Ok(Offer(OfferedName(es), NameBytes(OfferedProtocols(es))))
  {
    hide Message.Serialize, Offers, ParseHello, HelloMessage;
    HelloMessageIsHello(m);
    OfferIsRead(m);
  }

  /** From end to end: a client's ClientHello is cut into any fragments, and their bytes are fed
      in any pieces between any other calls. Once the piece with its last byte is in, the next
      gated call stops at the ClientHello with the client's host name and protocols. */
  lemma OfferIsSeen(leaf: Option<nat>, calls: seq<Call>, piece: seq<byte>, script: seq<Transfer>,
                    fs: seq<Fragment>, m: Message)
    requires m.Valid() && Offers(m) && |m.Serialize()| + 4 <= 32 * 1024
    requires AllValid(fs) && Carried(fs) == HelloMessage(m) && |Wire(fs)| <= 40 * 1024
    requires Inv(Init(true, leaf))
    requires var fed := Run(Init(true, leaf), calls).trace.fed; fed < Wire(fs) <= fed + piece
    ensures var s := Run(Init(true, leaf), calls);
            && Inv(s) && Inv(Feed(s, piece))
            && StoppedAt(Gated(Feed(s, piece), script), m)
  {
    hide Inv, Run, Wire, Carried, AllValid, HelloMessage, Message.Serialize, Offers, IsHello, ParseHello,
         OfferedName, OfferedProtocols, ExtensionsOf, Gated;
    HelloReadsAs(m);
    RunKeeps(Init(true, leaf), calls);
    WaitsForHello(Init(true, leaf), calls, fs, HelloMessage(m));
    var s := Run(Init(true, leaf), calls);
    FedUp(s, piece, Wire(fs));
    var es := ExtensionsOf(m);
    PollStops(Feed(s, piece), script, fs, HelloMessage(m), Offer(OfferedName(es), NameBytes(OfferedProtocols(es))));
  }
}
