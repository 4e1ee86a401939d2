/**
 What the gated calls of packages/tls-engine/src/slicc_tls_engine.c answer, by what has happened
 to the session so far, and what choosing and refusing do.
 */
module TlsGate {
  import opened Bytes
  import opened ClientHello
  import opened HelloParser
  import opened TlsSession

  datatype Asking = Handshake | Read | Write

  datatype Answer =
    | FromTls(code: int)
    | NeedMoreInput
    | SelectNow
    | SelectPending
    | EndOfInput
    | Failed(error: Error)

  function HandshakeAnswer(gate: Gate, answer: int): Answer {
    match gate
    case Open => FromTls(answer)
    case MoreInput => NeedMoreInput
    case AtHello => SelectNow
    case Stopped(error) => Failed(error)
  }

  function WriteAnswer(gate: Gate, answer: int): Answer {
    if gate == AtHello then SelectPending else HandshakeAnswer(gate, answer)
  }

  function ReadAnswer(gate: Gate, answer: int): Answer {
    if gate == Stopped(ConnectionEof) then EndOfInput else WriteAnswer(gate, answer)
  }

  function Reply(asking: Asking, gate: Gate, answer: int): Answer {
    match asking
    case Handshake => HandshakeAnswer(gate, answer)
    case Read => ReadAnswer(gate, answer)
    case Write => WriteAnswer(gate, answer)
  }

  // ----- What has happened to a session -----

  ghost predicate Beginning(fed: seq<byte>, fs: seq<Fragment>, h: seq<byte>) {
    IsHello(h) && AllValid(fs) && Carried(fs) == h && |Wire(fs)| <= 40 * 1024 && fed < Wire(fs)
  }

  /** The client has sent the beginning of a ClientHello, in whatever records. */
  ghost predicate Unfinished(fed: seq<byte>) {
    exists fs, h :: Beginning(fed, fs, h)
  }

  ghost predicate Carries(fed: seq<byte>, fs: seq<Fragment>, m: Message)
    requires m.Valid() && |m.Serialize()| + 4 <= 32 * 1024
  {
    AllValid(fs) && Carried(fs) == HelloMessage(m) && Wire(fs) <= fed
  }

  /** The client has sent all of this ClientHello. */
  ghost predicate Finished(fed: seq<byte>, m: Message) {
    m.Valid() && |m.Serialize()| + 4 <= 32 * 1024 && exists fs :: Carries(fed, fs, m)
  }

  /** The seven bytes of a fatal alert, if there is room for them. */
  function AlertBytes(s: State, code: byte): seq<byte> {
    if |s.output| + 7 <= 65536 then [21, 3, 3, 0, 2, 2, code] else []
  }

  /** The codes of the alerts that answer a ClientHello. */
  function HelloCode(alert: Alert): Option<byte> {
    if alert == IllegalParameter then Some(47)
    else if alert == DecodeError then Some(50)
    else if alert == UnrecognizedName then Some(112)
    else None
  }

  /** The session has refused its client. */
  predicate TurnedAway(s: State, code: byte, error: Alert, t: State) {
    && t.select == Rejected && t.refused == AlertError(error)
    && t.output == s.output + AlertBytes(s, code) && t.trace.sent == s.trace.sent + AlertBytes(s, code)
    && t.input == s.input && t.trace.fed == s.trace.fed && t.trace.delivered == s.trace.delivered
  }

  // ----- The answers -----

  /** What one of the three calls answers, and what it leaves when Mbed TLS was not entered. */
  ghost predicate Answered(asking: Asking, s: State, answer: int, r: Answer, t: State) {
    var stop := if asking == Handshake then SelectNow else SelectPending;
    match s.select
    case Off => r == FromTls(answer)
    case Done => r == FromTls(answer)
    case Paused => r == stop && t == s
    case Rejected => r == Failed(s.refused) && t == s.(lastError := s.refused)
    case Wait =>
      && (Unfinished(s.trace.fed) ==>
            if s.eof then
              t == s.(lastError := ConnectionEof) && r == (if asking == Read then EndOfInput else Failed(ConnectionEof))
            else
              t == s && r == NeedMoreInput)
      && forall m :: Finished(s.trace.fed, m) ==> AnsweredHello(s, m, stop, r, t)
  }

  /** At a ClientHello the session stops with what it offers, or refuses it. */
  ghost predicate AnsweredHello(s: State, m: Message, stop: Answer, r: Answer, t: State) {
    match Meaning(ExtensionsOf(m), None, None)
    case Ok((name, protocols)) =>
      r == stop && Names(protocols) && t == s.(select := Paused, sni := name, alpn := NameBytes(protocols))
    case Err(alert) =>
      && r == Failed(AlertError(alert)) && HelloCode(alert).Some?
      && TurnedAway(s, HelloCode(alert).value, alert, t)
  }

  lemma UnfinishedGate(s: State)
    requires Inv(s) && s.select == Wait && Unfinished(s.trace.fed)
    ensures |s.output| <= OUT_CAP
    ensures SelectGate(s) == if s.eof then (s.(lastError := ConnectionEof), Stopped(ConnectionEof)) else (s, MoreInput)
  {
    var fs, h :| Beginning(s.trace.fed, fs, h);
    WaitGate(s, fs, h);
  }

  /** The gate when the ClientHello is complete. */
  lemma FinishedGate(s: State, m: Message)
    requires Inv(s) && s.select == Wait && Finished(s.trace.fed, m)
    ensures |s.output| <= OUT_CAP
    ensures SelectGate(s) ==
            match ParseHello(m.Serialize())
            case Err(alert) => RefuseHello(s, alert)
            case Ok(offer) => (s.(select := Paused, sni := offer.sni, alpn := offer.alpn), AtHello)
  {
    hide Inv, Wire, Carried, AllValid, ParseHello, AssembleInput, HelloMessage, Message.Serialize, RefuseHello, IsHello;
    var fs :| Carries(s.trace.fed, fs, m);
    var h := HelloMessage(m);
    InputOfWait(s);
    HelloMessageIsHello(m);
    var more := s.trace.fed[|Wire(fs)|..];
    assert s.trace.fed == Wire(fs) + more;
    ReassemblesInput(fs, h, 0, more);
    assert |h| >= 4 by { LongEnough(h); }
  }

  lemma LongEnough(h: seq<byte>)
    requires IsHello(h)
    ensures |h| >= 4
  {
  }

  /** Only three alerts come from the extensions of a message. */
  lemma {:induction false} MeaningAlerts(es: seq<Extension>, sni: Option<seq<byte>>, alpn: Option<seq<seq<byte>>>)
    ensures Meaning(es, sni, alpn).Err? ==> Meaning(es, sni, alpn).error in {IllegalParameter, DecodeError, UnrecognizedName}
  {
    if es != [] {
      match es[0]
      case ServerName(names) =>
        HostNameAlerts(names);
        if FirstHostName(names).Ok? {
          MeaningAlerts(es[1..], Some(FirstHostName(names).value), alpn);
        }
      case Protocols(list) => MeaningAlerts(es[1..], sni, Some(list));
      case OtherExtension(_, _) => MeaningAlerts(es[1..], sni, alpn);
    }
  }

  lemma {:induction false} HostNameAlerts(names: seq<ServerNameEntry>)
    ensures FirstHostName(names).Err? ==> FirstHostName(names).error in {IllegalParameter, DecodeError, UnrecognizedName}
  {
    if names != [] {
      HostNameAlerts(names[1..]);
    }
  }

  lemma RefusalIsTurningAway(s: State, alert: Alert)
    requires Inv(s) && s.select == Wait && HelloCode(alert).Some?
    ensures |s.output| <= OUT_CAP
    ensures var (t, gate) := RefuseHello(s, alert);
            && gate == Stopped(AlertError(alert))
            && TurnedAway(s, HelloCode(alert).value, alert, t)
  {
  }

  lemma FinishedAnswer(asking: Asking, s: State, answer: int, m: Message)
    requires Inv(s) && s.select == Wait && Finished(s.trace.fed, m)
    ensures |s.output| <= OUT_CAP
    ensures AnsweredHello(s, m, if asking == Handshake then SelectNow else SelectPending,
                          Reply(asking, SelectGate(s).1, answer), SelectGate(s).0)
  {
    hide Inv, ParseHello, SelectGate, RefuseHello, TurnedAway, Message.Serialize;
    FinishedGate(s, m);
    MessageRoundTrip(m);
    MeaningAlerts(ExtensionsOf(m), None, None);
    var meaning := Meaning(ExtensionsOf(m), None, None);
    if meaning.Err? {
      RefusalIsTurningAway(s, meaning.error);
    }
  }

  lemma WaitAnswers(asking: Asking, s: State, answer: int)
    requires Inv(s) && s.select == Wait
    ensures |s.output| <= OUT_CAP
    ensures Answered(asking, s, answer, Reply(asking, SelectGate(s).1, answer), SelectGate(s).0)
  {
    hide Inv, SelectGate, Unfinished, Finished, AnsweredHello;
    StepParts(s);
    if Unfinished(s.trace.fed) {
      UnfinishedGate(s);
    }
    forall m | Finished(s.trace.fed, m)
      ensures AnsweredHello(s, m, if asking == Handshake then SelectNow else SelectPending,
                            Reply(asking, SelectGate(s).1, answer), SelectGate(s).0)
    {
      FinishedAnswer(asking, s, answer, m);
    }
  }

  /** In every state a session can be in, all three calls answer so. */
  lemma GateAnswers(asking: Asking, s: State, script: seq<Transfer>, answer: int)
    requires Inv(s)
    ensures |s.output| <= OUT_CAP
    ensures Answered(asking, s, answer, Reply(asking, SelectGate(s).1, answer), Gated(s, script))
  {
    StepParts(s);
    GateKeeps(s);
    if s.select == Wait {
      hide Inv, SelectGate, Answered;
      WaitAnswers(asking, s, answer);
    } else {
      OtherAnswers(asking, s, script, answer);
    }
  }

  lemma OtherAnswers(asking: Asking, s: State, script: seq<Transfer>, answer: int)
    requires Inv(s) && s.select != Wait
    ensures |s.output| <= OUT_CAP
    ensures Answered(asking, s, answer, Reply(asking, SelectGate(s).1, answer), Gated(s, script))
  {
    StepParts(s);
    assert s.select == Rejected ==> s.refused.AlertError?;
    hide Inv, Unfinished, Finished, Meaning, ReadHello, Transfers;
  }

  /** The code on the wire and the error for an alert that records or a message type give rise to. */
  function RecordCode(alert: Alert): Option<(byte, Alert)> {
    if alert == UnexpectedMessage then Some((10, UnexpectedMessage))
    else if alert == RecordOverflow then Some((22, HandshakeFailure))
    else if alert == DecodeError then Some((50, DecodeError))
    else if alert == ProtocolVersion then Some((70, ProtocolVersion))
    else None
  }

  /** A client whose records are refused is turned away by the next of the three calls. */
  lemma RecordsTurnedAway(asking: Asking, s: State, script: seq<Transfer>, answer: int, alert: Alert)
    requires Inv(s) && s.select == Wait && AssembleInput(s.trace.fed) == Refused(alert) && RecordCode(alert).Some?
    ensures |s.output| <= OUT_CAP
    ensures var (code, error) := RecordCode(alert).value;
            && TurnedAway(s, code, error, Gated(s, script))
            && Reply(asking, SelectGate(s).1, answer) == Failed(AlertError(error))
  {
    InputOfWait(s);
    hide Inv, AssembleInput, TurnedAway, Refuse, AlertCode, ErrorOf, RecordCode;
    RecordCodes(alert);
    var c := s.(sni := [], alpn := []);
    RefuseTurnsAway(c, alert);
    AwayFromBefore(s, c, AlertCode(alert), ErrorOf(alert).alert, Refuse(c, alert));
  }

  lemma RecordCodes(alert: Alert)
    requires RecordCode(alert).Some?
    ensures AlertCode(alert) == RecordCode(alert).value.0 && ErrorOf(alert) == AlertError(RecordCode(alert).value.1)
  {
  }

  // ----- Choosing and refusing -----

  /** `tls_server_select`: whether the session is now served, and what became of it. */
  predicate Chosen(s: State, l: Option<nat>, alpn: seq<byte>, certOk: bool, alpnOk: bool, ok: bool, t: State)
    requires WellFormedNames(s.alpn)
  {
    var leaf := if l.Some? then l else s.leaf;
    if !(s.select == Paused && leaf.Some? && leaf.value > 0
         && (alpn == [] || (|alpn| <= 255 && 0 !in alpn && Offered(s.alpn, alpn)))) then
      !ok && t == s.(lastError := BadArgument)
    else if certOk && (alpn == [] || alpnOk) then
      ok && t == s.(select := Done, leaf := leaf, chosen := alpn)
    else
      !ok && TurnedAway(s, 80, InternalError, t) && t.lastError == AlertError(InternalError)
      && t.sni == s.sni && t.alpn == s.alpn
  }

  /** What `refuse` does. */
  lemma RefuseTurnsAway(s: State, alert: Alert)
    requires |s.output| <= OUT_CAP
    ensures var t := Refuse(s, alert);
            && ErrorOf(alert).AlertError? && TurnedAway(s, AlertCode(alert), ErrorOf(alert).alert, t)
            && t.sni == s.sni && t.alpn == s.alpn && t.lastError == ErrorOf(alert)
  {
  }

  /** The same seen from before the choice was noted. */
  lemma AwayFromBefore(s: State, c: State, code: byte, error: Alert, t: State)
    requires TurnedAway(c, code, error, t)
    requires c.output == s.output && c.input == s.input && c.trace == s.trace
    ensures TurnedAway(s, code, error, t)
  {
  }

  lemma ChoiceRefused(s: State, c: State)
    requires |s.output| <= OUT_CAP && c == s.(leaf := c.leaf, chosen := c.chosen)
    ensures var t := Refuse(c, InternalError);
            && TurnedAway(s, 80, InternalError, t) && t.lastError == AlertError(InternalError)
            && t.sni == s.sni && t.alpn == s.alpn && t.select == Rejected
  {
    hide Refuse;
    RefuseTurnsAway(c, InternalError);
    AwayFromBefore(s, c, 80, InternalError, Refuse(c, InternalError));
  }

  lemma SelectChooses(s: State, l: Option<nat>, alpn: seq<byte>, certOk: bool, alpnOk: bool)
    requires Inv(s)
    ensures WellFormedNames(s.alpn) && |s.output| <= OUT_CAP
    ensures var t := Select(s, l, alpn, certOk, alpnOk);
            Chosen(s, l, alpn, certOk, alpnOk, s.select == Paused && t.select == Done, t)
  {
    StepParts(s);
    assert s.select == Paused ==> s.chosen == [];
    hide Inv, Refuse, Offered, TurnedAway;
    if Selectable(s, l, alpn) {
      var k := s.(leaf := if l.Some? then l else s.leaf);
      ChoiceRefused(s, k);
      ChoiceRefused(s, k.(chosen := alpn));
    }
  }

  function ErrorFor(code: int): Alert {
    if code == 80 then InternalError
    else if code == 112 then UnrecognizedName
    else if code == 120 then NoApplicationProtocol
    else HandshakeFailure
  }

  lemma PermittedCodes(code: int)
    ensures Permitted(code).Some? <==> code in {40, 49, 80, 112, 120}
    ensures Permitted(code).Some? ==>
              AlertCode(Permitted(code).value) == code && ErrorOf(Permitted(code).value) == AlertError(ErrorFor(code))
  {
  }

  lemma AwayWithin(s: State, code: byte, error: Alert, t: State, last: Error)
    requires TurnedAway(s, code, error, t)
    ensures TurnedAway(s, code, error, t.(lastError := last))
  {
  }

  /** `tls_server_refuse`: whether the client was refused, and what became of the session. */
  predicate TurnedDown(s: State, code: int, ok: bool, t: State) {
    if s.select == Paused && code in {40, 49, 80, 112, 120} then
      && ok && t.lastError == s.lastError && t.sni == s.sni && t.alpn == s.alpn
      && TurnedAway(s, code, ErrorFor(code), t)
    else
      !ok && t == s.(lastError := BadArgument)
  }

  lemma RefusalTurnsDown(s: State, code: int)
    requires Inv(s)
    ensures |s.output| <= OUT_CAP
    ensures TurnedDown(s, code, s.select == Paused && Permitted(code).Some?, ServerRefuse(s, code))
  {
    StepParts(s);
    hide Inv, Refuse, TurnedAway, Permitted, AlertCode, ErrorOf, ErrorFor;
    PermittedCodes(code);
    if s.select == Paused && Permitted(code).Some? {
      var alert := Permitted(code).value;
      RefuseTurnsAway(s, alert);
      AwayWithin(s, code, ErrorFor(code), Refuse(s, alert), s.lastError);
    }
  }

  // ----- Over whole runs -----

  /** A client that goes away before its ClientHello is complete, or one that is still sending it:
      whatever was called so far, the next handshake or write fails with the end of the
      connection and a read reports the end, or all three ask for more. */
  lemma EarlyEnd(leaf: Option<nat>, calls: seq<Call>, asking: Asking, script: seq<Transfer>, answer: int)
    requires Inv(Init(true, leaf)) && Unfinished(Run(Init(true, leaf), calls).trace.fed)
    ensures var s := Run(Init(true, leaf), calls);
            && Inv(s) && s.select == Wait && s.input == s.trace.fed
            && var t, r := Gated(s, script), Reply(asking, SelectGate(s).1, answer);
               && t.select == Wait && t.input == t.trace.fed == s.trace.fed
               && r == if FeedEof !in calls then NeedMoreInput
                       else if asking == Read then EndOfInput else Failed(ConnectionEof)
  {
    hide Inv, Run, SelectGate, IsHello, AllValid, Carried, Wire;
    var first := Init(true, leaf);
    RunKeeps(first, calls);
    var s := Run(first, calls);
    var fs, h :| Beginning(s.trace.fed, fs, h);
    WaitsForHello(first, calls, fs, h);
    StepParts(s);
    UnfinishedGate(s);
  }
}
