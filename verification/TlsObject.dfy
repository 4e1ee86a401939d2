/**
 The session object of packages/tls-engine/src/slicc_tls_engine.c, its buffers changed in place,
 proved to take the steps of TlsSession and to answer as TlsGate says.
 */
module TlsObject {
  import opened Bytes
  import opened ClientHello
  import opened HelloParser
  import opened TlsSession
  import opened TlsGate

  /** `memcpy` behind the bytes in use. */
  method Append(buf: array<byte>, len: nat, bytes: seq<byte>)
    requires len + |bytes| <= buf.Length
    modifies buf
    ensures buf[..len + |bytes|] == old(buf[..len]) + bytes
  {
    forall i | 0 <= i < |bytes| {
      buf[len + i] := bytes[i];
    }
  }

  /** `memcpy` of the first n bytes in use. */
  method CopyOut(src: array<byte>, n: nat, dst: array<byte>)
    requires src != dst && n <= src.Length && n <= dst.Length
    modifies dst
    ensures dst[..n] == old(src[..n])
  {
    forall i | 0 <= i < n {
      dst[i] := src[i];
    }
  }

  /** `memmove` of what is in use behind the first n bytes to the front. */
  method MoveDown(buf: array<byte>, len: nat, n: nat)
    requires n <= len <= buf.Length
    modifies buf
    ensures buf[..len - n] == old(buf[..len])[n..]
  {
    forall i | 0 <= i < len - n {
      buf[i] := buf[i + n];
    }
  }

  /** What Mbed TLS is told when it asks for input. */
  datatype Received = Got(n: nat) | WantRead | ConnEof

  class Session {
    const input: array<byte>
    const output: array<byte>
    const hello: array<byte>
    var inLen: nat
    var outLen: nat
    var inEof: bool
    var select: Selection
    var refused: Error
    var sni: seq<byte>
    var clientAlpn: seq<byte>
    var leaf: Option<nat>
    var chosenAlpn: seq<byte>
    var lastError: Error
    ghost var trace: Trace

    ghost predicate Shaped()
      reads this
    {
      && input != output && input != hello && output != hello
      && input.Length == IN_CAP && output.Length == OUT_CAP && hello.Length == HELLO_MAX
      && inLen <= IN_CAP && outLen <= OUT_CAP
    }

    ghost function Abs(): State
      requires Shaped()
      reads this, input, output
    {
      State(input[..inLen], output[..outLen], inEof, select, refused, sni, clientAlpn, leaf, chosenAlpn,
            lastError, trace)
    }

    ghost predicate Valid()
      reads this, input, output
    {
      Shaped() && Inv(Abs())
    }

    constructor (selecting: bool, leaf: Option<nat>)
      ensures Valid() && Abs() == Init(selecting, leaf) && fresh(input) && fresh(output) && fresh(hello)
    {
      input := new byte[IN_CAP](_ => 0);
      output := new byte[OUT_CAP](_ => 0);
      hello := new byte[HELLO_MAX](_ => 0);
      inLen, outLen, inEof := 0, 0, false;
      select := if selecting then Wait else Off;
      refused, lastError := NoError, NoError;
      sni, clientAlpn, chosenAlpn := [], [], [];
      this.leaf := leaf;
      trace := Trace([], [], [], [], 0, 0);
      new;
      InitKeeps(selecting, leaf);
    }

    /** `bio_recv`. */
    method BioRecv(buf: array<byte>, len: nat) returns (r: Received)
      requires Valid() && select in {Off, Done}
      requires len <= buf.Length && buf !in {input, output, hello}
      modifies this`inLen, this`trace, input, buf
      ensures Valid() && Abs() == Receive(old(Abs()), len)
      ensures r == if old(inLen) > 0 then Got(Min(len, old(inLen))) else if old(inEof) then ConnEof else WantRead
      ensures r.Got? ==> buf[..r.n] == old(input[..inLen])[..r.n]
    {
      hide Inv;
      ghost var before := Abs();
      ReceiveKeeps(before, len);
      if inLen == 0 {
        ReceiveNothing(before, len);
        return if inEof then ConnEof else WantRead;
      }
      var k := Min(len, inLen);
      CopyOut(input, k, buf);
      MoveDown(input, inLen, k);
      trace := trace.(delivered := trace.delivered + before.input[..k]);
      inLen := inLen - k;
      assert Abs() == Receive(before, len);
      return Got(k);
    }

    /** `bio_send`: None is WANT_WRITE. */
    method BioSend(bytes: seq<byte>) returns (n: Option<nat>)
      requires Valid()
      modifies this`outLen, this`trace, output
      ensures Valid() && Abs() == Send(old(Abs()), bytes)
      ensures n.None? <==> old(outLen) == OUT_CAP
      ensures n.Some? ==> n.value == Min(|bytes|, OUT_CAP - old(outLen))
    {
      hide Inv;
      ghost var before := Abs();
      SendKeeps(before, bytes);
      var room := OUT_CAP - outLen;
      if room == 0 {
        trace := trace.(sent := trace.sent + bytes[..0]);
        assert before.output + bytes[..0] == before.output;
        assert Abs() == Send(before, bytes);
        return None;
      }
      var k := Min(|bytes|, room);
      Append(output, outLen, bytes[..k]);
      trace := trace.(sent := trace.sent + bytes[..k]);
      outLen := outLen + k;
      assert Abs() == Send(before, bytes);
      return Some(k);
    }

    /** `tls_feed`: how many bytes were taken. */
    method TlsFeed(bytes: seq<byte>) returns (n: nat)
      requires Valid()
      modifies this`inLen, this`trace, input
      ensures Valid() && Abs() == Feed(old(Abs()), bytes)
      ensures n == Min(|bytes|, IN_CAP - old(inLen))
    {
      hide Inv;
      ghost var before := Abs();
      FeedKeeps(before, bytes);
      n := Min(|bytes|, IN_CAP - inLen);
      var part := bytes[..n];
      Append(input, inLen, part);
      trace := trace.(fed := trace.fed + part);
      inLen := inLen + n;
      assert Abs() == Supply(before, part);
    }

    /** `tls_feed_eof`. */
    method TlsFeedEof()
      requires Valid()
      modifies this`inEof
      ensures Valid() && Abs() == old(Abs()).(eof := true)
    {
      inEof := true;
    }

    /** `tls_out_take`. */
    method TlsOutTake(buf: array<byte>, max: nat) returns (n: nat)
      requires Valid() && max <= buf.Length && buf !in {input, output, hello}
      modifies this`outLen, this`trace, output, buf
      ensures Valid() && Abs() == Take(old(Abs()), max)
      ensures n == Min(max, old(outLen)) && buf[..n] == old(output[..outLen])[..n]
    {
      hide Inv;
      ghost var before := Abs();
      TakeKeeps(before, max);
      n := Min(max, outLen);
      CopyOut(output, n, buf);
      MoveDown(output, outLen, n);
      trace := trace.(taken := trace.taken + before.output[..n]);
      outLen := outLen - n;
      assert Abs() == Take(before, max);
    }

    /** `refuse`: queues the alert if there is room for it, and ends the selection. */
    method RefuseClient(alert: Alert)
      requires Shaped()
      modifies this`outLen, this`trace, this`select, this`refused, this`lastError, output
      ensures Shaped() && Abs() == Refuse(old(Abs()), alert)
    {
      if OUT_CAP - outLen >= 7 {
        var record := AlertRecord(alert);
        Append(output, outLen, record);
        trace := trace.(sent := trace.sent + record, alerts := trace.alerts + 1);
        outLen := outLen + 7;
      }
      select := Rejected;
      refused := ErrorOf(alert);
      lastError := refused;
    }

    /** The gate in SELECT_WAIT. */
    method ReadClientHello() returns (gate: Gate)
      requires Shaped() && select == Wait
      modifies this, output, hello
      ensures Shaped() && (Abs(), gate) == ReadHello(old(Abs()))
    {
      ghost var before := Abs();
      MessageLength([], before.input);
      var a := HelloAssemble(input, inLen, hello);
      assert Abs() == before;
      var alert: Alert;
      match a {
        case NeedMore =>
          if inEof {
            lastError := ConnectionEof;
            return Stopped(lastError);
          }
          return MoreInput;
        case Refused(al) =>
          alert := al;
        case Hello(m) =>
          var parsed := HelloParse(m[4..]);
          if parsed.Ok? {
            sni, clientAlpn := parsed.value.sni, parsed.value.alpn;
            select := Paused;
            return AtHello;
          }
          alert := parsed.error;
      }
      clientAlpn := [];
      sni := [];
      RefuseClient(alert);
      return Stopped(lastError);
    }

    /** `select_gate`. */
    method RunGate() returns (gate: Gate)
      requires Valid()
      modifies this, output, hello
      ensures Valid() && (Abs(), gate) == SelectGate(old(Abs()))
    {
      ghost var before := Abs();
      GateKeeps(before);
      if select == Off || select == Done {
        return Open;
      }
      if select == Rejected {
        lastError := refused;
        return Stopped(lastError);
      }
      if select == Paused {
        return AtHello;
      }
      gate := ReadClientHello();
    }

    /** Mbed TLS's transfers in one call. */
    method RunTls(script: seq<Transfer>)
      requires Valid() && select in {Off, Done}
      modifies this, input, output
      ensures Valid() && Abs() == Transfers(old(Abs()), script)
    {
      var k := 0;
      ghost var rest := script;
      while k < |script|
        invariant 0 <= k <= |script| && rest == script[k..]
        invariant Valid() && select in {Off, Done}
        invariant Transfers(old(Abs()), script) == Transfers(Abs(), rest)
      {
        match script[k] {
          case Recv(len) =>
            var buf := new byte[len](_ => 0);
            var n := BioRecv(buf, len);
          case Emit(bytes) =>
            var n := BioSend(bytes);
        }
        rest := rest[1..];
        k := k + 1;
      }
    }

    /** `tls_handshake`: 1 when it is done, 0 for more input, or an error; 2 (TLS_SELECT) while
        the caller has to choose. The answer behind the gate is Mbed TLS's. */
    method TlsHandshake(script: seq<Transfer>, answer: int) returns (r: Answer)
      requires Valid()
      modifies this, input, output, hello
      ensures Valid() && Abs() == Gated(old(Abs()), script)
      ensures Answered(Handshake, old(Abs()), answer, r, Abs())
    {
      GateAnswers(Handshake, Abs(), script, answer);
      r := Drive(script, answer);
    }

    /** `tls_read` and `tls_write` share the gate of the handshake; only what they answer while
        it is closed differs. */
    method TlsRead(script: seq<Transfer>, answer: int) returns (r: Answer)
      requires Valid()
      modifies this, input, output, hello
      ensures Valid() && Abs() == Gated(old(Abs()), script)
      ensures Answered(Read, old(Abs()), answer, r, Abs())
    {
      GateAnswers(Read, Abs(), script, answer);
      r := Drive(script, answer);
      if r == SelectNow {
        r := SelectPending;
      } else if r == Failed(ConnectionEof) {
        r := EndOfInput;
      }
    }

    method TlsWrite(script: seq<Transfer>, answer: int) returns (r: Answer)
      requires Valid()
      modifies this, input, output, hello
      ensures Valid() && Abs() == Gated(old(Abs()), script)
      ensures Answered(Write, old(Abs()), answer, r, Abs())
    {
      GateAnswers(Write, Abs(), script, answer);
      r := Drive(script, answer);
      if r == SelectNow {
        r := SelectPending;
      }
    }

    method Drive(script: seq<Transfer>, answer: int) returns (r: Answer)
      requires Valid()
      modifies this, input, output, hello
      ensures Valid() && Abs() == Gated(old(Abs()), script)
      ensures r == HandshakeAnswer(SelectGate(old(Abs())).1, answer)
    {
      ghost var before := Abs();
      GateKeeps(before);
      GatedKeeps(before, script);
      var gate := RunGate();
      if gate != Open {
        return HandshakeAnswer(gate, answer);
      }
      EnterTls();
      RunTls(script);
      return FromTls(answer);
    }

    ghost method EnterTls()
      requires Valid() && select in {Off, Done}
      modifies this`trace
      ensures Valid() && Abs() == Enter(old(Abs()))
    {
      EnterKeeps(Abs());
      trace := trace.(entered := trace.entered + 1);
    }

    /** The arguments `tls_server_select` accepts. */
    method Accepts(l: Option<nat>, alpn: seq<byte>) returns (b: bool)
      requires Valid()
      ensures b == Selectable(Abs(), l, alpn)
    {
      var chosen := if l.Some? then l else leaf;
      if select != Paused || chosen.None? || chosen.value == 0 {
        return false;
      }
      if |alpn| > 0 {
        var listed := AlpnOffered(clientAlpn, alpn);
        return |alpn| < ALPN_SIZE && 0 !in alpn && listed;
      }
      return true;
    }

    /** `tls_server_select`: whether the session is now served. */
    method TlsServerSelect(l: Option<nat>, alpn: seq<byte>, certOk: bool, alpnOk: bool) returns (ok: bool)
      requires Valid()
      modifies this, output
      ensures Valid() && Abs() == Select(old(Abs()), l, alpn, certOk, alpnOk)
      ensures Chosen(old(Abs()), l, alpn, certOk, alpnOk, ok, Abs())
    {
      SelectChooses(Abs(), l, alpn, certOk, alpnOk);
      SelectKeeps(Abs(), l, alpn, certOk, alpnOk);
      var accepted := Accepts(l, alpn);
      if !accepted {
        lastError := BadArgument;
        return false;
      }
      ok := Choose(l, alpn, certOk, alpnOk);
    }

    method Choose(l: Option<nat>, alpn: seq<byte>, certOk: bool, alpnOk: bool) returns (ok: bool)
      requires Shaped() && WellFormedNames(clientAlpn) && Selectable(Abs(), l, alpn)
      modifies this, output
      ensures Shaped() && Abs() == Select(old(Abs()), l, alpn, certOk, alpnOk)
      ensures ok <==> select == Done
    {
      leaf := if l.Some? then l else leaf;
      var ret := certOk;
      if ret && |alpn| > 0 {
        chosenAlpn := alpn;
        ret := alpnOk;
      }
      if !ret {
        RefuseClient(InternalError);
        return false;
      }
      select := Done;
      return true;
    }

    /** `tls_server_refuse`: whether the client was refused. */
    method TlsServerRefuse(code: int) returns (ok: bool)
      requires Valid()
      modifies this, output
      ensures Valid() && Abs() == ServerRefuse(old(Abs()), code)
      ensures TurnedDown(old(Abs()), code, ok, Abs())
    {
      RefusalTurnsDown(Abs(), code);
      ServerRefuseKeeps(Abs(), code);
      if select != Paused || Permitted(code).None? {
        lastError := BadArgument;
        return false;
      }
      var was := lastError;
      RefuseClient(Permitted(code).value);
      lastError := was;
      return true;
    }

    /** `tls_close`: Mbed TLS queues what it can of close_notify, whatever the gate says. */
    method TlsClose(sends: seq<seq<byte>>)
      requires Valid()
      modifies this`outLen, this`trace, output
      ensures Valid() && Abs() == SendAll(old(Abs()), sends)
    {
      var k := 0;
      ghost var rest := sends;
      while k < |sends|
        invariant 0 <= k <= |sends| && rest == sends[k..]
        invariant Valid() && SendAll(old(Abs()), sends) == SendAll(Abs(), rest)
      {
        var n := BioSend(sends[k]);
        rest := rest[1..];
        k := k + 1;
      }
    }
  }
}
