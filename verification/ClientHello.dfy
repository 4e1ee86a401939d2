/**
 How packages/tls-engine/src/slicc_tls_engine.c looks at a ClientHello before Mbed TLS sees
 it: reassembly from TLS record fragments (section 5.1 of RFC 8446) and the parser of the
 message (section 4.1.2), its server_name extension (section 3 of RFC 6066) and its ALPN
 extension (section 3.1 of RFC 7301).
 */
module ClientHello {
  import opened Bytes

  const IN_CAP := 40 * 1024
  const HELLO_MAX := 32 * 1024
  const SNI_SIZE := 256

  const HANDSHAKE_RECORD: byte := 22
  const CLIENT_HELLO: byte := 1
  const EXT_SERVER_NAME := 0
  const EXT_ALPN := 16
  const HOST_NAME: byte := 0

  /** The fatal alerts the engine itself raises. */
  datatype Alert =
    | UnexpectedMessage
    | RecordOverflow
    | HandshakeFailure
    | IllegalParameter
    | AccessDenied
    | DecodeError
    | ProtocolVersion
    | InternalError
    | UnrecognizedName
    | NoApplicationProtocol

  function Be16(p: seq<byte>, at: nat): nat
    requires at + 2 <= |p|
  {
    BigEndian(p[at], p[at + 1])
  }

  function BigEndian(hi: nat, lo: nat): nat {
    hi * 256 + lo
  }

  function Put16(n: nat): (r: seq<byte>)
    requires n < 65536
    ensures |r| == 2 && Be16(r, 0) == n
  {
    [n / 256, n % 256]
  }

  // ----- Reassembly -----

  datatype Assembly = NeedMore | Hello(message: seq<byte>) | Refused(alert: Alert)

  /** The length of the handshake message whose first bytes are `have`. */
  function Need(have: seq<byte>): nat
    requires |have| >= 4
  {
    4 + BigEndian(BigEndian(have[1], have[2]), have[3])
  }

  /** What the handshake bytes gathered so far decide by themselves. */
  function Examine(have: seq<byte>): Assembly {
    if |have| < 4 then NeedMore
    else if have[0] != CLIENT_HELLO then Refused(UnexpectedMessage)
    else if Need(have) > HELLO_MAX then Refused(DecodeError)
    else if |have| >= Need(have) then Hello(have[..Need(have)])
    else NeedMore
  }

  /** What the header of the next record decides: an alert, or its body's length. */
  function RecordBody(rest: seq<byte>): Result<nat, Alert>
    requires |rest| >= 5
  {
    if rest[0] != HANDSHAKE_RECORD then Err(UnexpectedMessage)
    else if rest[1] != 3 then Err(ProtocolVersion)
    else if Be16(rest, 3) == 0 then Err(UnexpectedMessage)
    else if Be16(rest, 3) > 16384 then Err(RecordOverflow)
    else Ok(Be16(rest, 3))
  }

  /** One round of the reassembly loop: the final answer, or the length of the next fragment. */
  function Next(have: seq<byte>, rest: seq<byte>): (r: Result<nat, Assembly>)
    ensures r.Ok? ==> 5 + r.value <= |rest| && |have| + r.value <= HELLO_MAX
  {
    if !Examine(have).NeedMore? then Err(Examine(have))
    else if |rest| < 5 then Err(NeedMore)
    else match RecordBody(rest)
      case Err(alert) => Err(Refused(alert))
      case Ok(body) =>
        if |rest| - 5 < body then Err(NeedMore)
        else if |have| + body > HELLO_MAX then Err(Refused(DecodeError))
        else Ok(body)
  }

  /** The records in `rest`, after the handshake bytes `have` of earlier ones. */
  function Assemble(have: seq<byte>, rest: seq<byte>): Assembly
    decreases |rest|
  {
    match Next(have, rest)
    case Err(answer) => answer
    case Ok(body) => Assemble(have + rest[5..5 + body], rest[5 + body..])
  }

  /** A full buffer that still is not enough is refused. */
  function Final(a: Assembly, inLen: nat): Assembly {
    if a.NeedMore? && inLen == IN_CAP then Refused(DecodeError) else a
  }

  /** `hello_assemble` on the whole input buffer. */
  function AssembleInput(input: seq<byte>): Assembly {
    Final(Assemble([], input), |input|)
  }

  /** The alert for the header of the record at `at`, or the length of its body. */
  method RecordHeader(input: array<byte>, at: nat, inLen: nat) returns (r: Result<nat, Alert>)
    requires at + 5 <= inLen <= input.Length
    ensures r == RecordBody(input[at..inLen])
  {
    if input[at] != HANDSHAKE_RECORD {
      return Err(UnexpectedMessage);
    }
    if input[at + 1] != 3 {
      return Err(ProtocolVersion);
    }
    var body := BigEndian(input[at + 3], input[at + 4]);
    if body == 0 {
      return Err(UnexpectedMessage);
    }
    if body > 16384 {
      return Err(RecordOverflow);
    }
    return Ok(body);
  }

  /** Copies the body of the record at `at` behind the handshake bytes gathered so far. */
  method CopyFragment(input: array<byte>, at: nat, inLen: nat, hello: array<byte>, have: nat, body: nat)
    requires input != hello && at + 5 + body <= inLen <= input.Length && have + body <= hello.Length
    modifies hello
    ensures hello[..have + body] == old(hello[..have]) + old(input[at..inLen])[5..5 + body]
    ensures input[at + 5 + body..inLen] == old(input[at..inLen])[5 + body..]
  {
    forall i | 0 <= i < body {
      hello[have + i] := input[at + 5 + i];
    }
  }

  /** Whether the first `have` bytes of `hello` already decide. */
  method ExamineBuffer(hello: array<byte>, have: nat) returns (a: Assembly)
    requires have <= hello.Length
    ensures a == Examine(hello[..have])
    ensures a.Hello? ==> |a.message| <= have && hello[..|a.message|] == a.message
  {
    if have >= 4 {
      if hello[0] != CLIENT_HELLO {
        return Refused(UnexpectedMessage);
      }
      var need := 4 + BigEndian(BigEndian(hello[1], hello[2]), hello[3]);
      if need > HELLO_MAX {
        return Refused(DecodeError);
      }
      if have >= need {
        assert hello[..have][..need] == hello[..need];
        return Hello(hello[..need]);
      }
    }
    return NeedMore;
  }

  method NextFragment(input: array<byte>, at: nat, inLen: nat, hello: array<byte>, have: nat)
    returns (r: Result<nat, Assembly>)
    requires at <= inLen <= input.Length && have <= hello.Length
    ensures r == Next(hello[..have], input[at..inLen])
    ensures r.Err? && r.error.Hello? ==> |r.error.message| <= have && hello[..|r.error.message|] == r.error.message
  {
    var a := ExamineBuffer(hello, have);
    if !a.NeedMore? {
      return Err(a);
    }
    if inLen - at < 5 {
      return Err(NeedMore);
    }
    var header := RecordHeader(input, at, inLen);
    if header.Err? {
      return Err(Refused(header.error));
    }
    var body := header.value;
    if inLen - at - 5 < body {
      return Err(NeedMore);
    }
    if have + body > HELLO_MAX {
      return Err(Refused(DecodeError));
    }
    return Ok(body);
  }

  /** `hello_assemble`. It rereads the buffer from its start on every call and copies the
      fragments next to each other into `hello`. */
  method HelloAssemble(input: array<byte>, inLen: nat, hello: array<byte>) returns (a: Assembly)
    requires inLen <= input.Length == IN_CAP && hello.Length == HELLO_MAX && input != hello
    modifies hello
    ensures a == AssembleInput(old(input[..inLen]))
    ensures a.Hello? ==> |a.message| <= HELLO_MAX && hello[..|a.message|] == a.message
  {
    var at: nat, have: nat := 0, 0;
    ghost var whole := input[..inLen];
    ghost var got: seq<byte>, rest := [], whole;
    assert input[0..inLen] == rest && hello[..0] == got;
    var next := NextFragment(input, at, inLen, hello, have);
    while next.Ok?
      invariant at <= inLen && have <= HELLO_MAX
      invariant hello[..have] == got && input[at..inLen] == rest && next == Next(got, rest)
      invariant next.Err? && next.error.Hello? ==>
                  |next.error.message| <= have && hello[..|next.error.message|] == next.error.message
      invariant Assemble([], whole) == Assemble(got, rest)
      decreases inLen - at
    {
      var body := next.value;
      CopyFragment(input, at, inLen, hello, have, body);
      have := have + body;
      at := at + 5 + body;
      got, rest := got + rest[5..5 + body], rest[5 + body..];
      next := NextFragment(input, at, inLen, hello, have);
    }
    assert Assemble([], whole) == next.error;
    a := next.error;
    if a.NeedMore? && inLen == IN_CAP {
      a := Refused(DecodeError);
    }
  }

  /** A decision is final: more input does not change it. */
  lemma {:induction false} AssembleStable(have: seq<byte>, rest: seq<byte>, more: seq<byte>)
    requires !Assemble(have, rest).NeedMore?
    ensures Assemble(have, rest + more) == Assemble(have, rest)
    decreases |rest|
  {
    if Examine(have).NeedMore? {
      var all := rest + more;
      assert |rest| >= 5 && RecordBody(all) == RecordBody(rest);
      match RecordBody(rest)
      case Err(_) =>
      case Ok(body) =>
        if |have| + body <= HELLO_MAX {
          assert all[5..5 + body] == rest[5..5 + body];
          assert all[5 + body..] == rest[5 + body..] + more;
          AssembleStable(have + rest[5..5 + body], rest[5 + body..], more);
        }
    }
  }

  /** For the engine's buffer: an answer other than "need more", given before the buffer is
      full, is the answer on every extension of it. */
  lemma AssembleInputStable(input: seq<byte>, more: seq<byte>)
    requires |input| < IN_CAP && |input| + |more| <= IN_CAP && !AssembleInput(input).NeedMore?
    ensures AssembleInput(input + more) == AssembleInput(input)
  {
    AssembleStable([], input, more);
  }

  // ----- Fragmentation -----

  /** One handshake record: any minor version, a body of 1 to 16384 bytes. */
  datatype Fragment = Fragment(minor: byte, body: seq<byte>) {
    predicate Valid() {
      1 <= |body| <= 16384
    }

    function Framed(): (r: seq<byte>)
      requires Valid()
      ensures |r| == 5 + |body|
    {
      [22, 3, minor] + Put16(|body|) + body
    }
  }

  predicate AllValid(fs: seq<Fragment>) {
    forall k :: 0 <= k < |fs| ==> fs[k].Valid()
  }

  /** The handshake bytes the fragments carry, and the records on the wire. */
  function Carried(fs: seq<Fragment>): seq<byte> {
    if fs == [] then [] else fs[0].body + Carried(fs[1..])
  }

  function Wire(fs: seq<Fragment>): seq<byte>
    requires AllValid(fs)
  {
    if fs == [] then [] else fs[0].Framed() + Wire(fs[1..])
  }

  function ThreeBytes(a: nat, b: nat, c: nat): nat {
    a * 65536 + b * 256 + c
  }

  /** A whole ClientHello message that the engine has room for. */
  predicate IsHello(m: seq<byte>) {
    |m| >= 4 && m[0] == 1 && 4 + ThreeBytes(m[1], m[2], m[3]) == |m| <= 32 * 1024
  }

  lemma ExaminePrefix(m: seq<byte>, have: seq<byte>)
    requires IsHello(m) && have <= m
    ensures Examine(have) == if have == m then Hello(m) else NeedMore
  {
    if have == m {
      assert m[..|m|] == m;
    } else if |have| >= 4 {
      assert Need(have) == Need(m);
    }
  }

  lemma FramedHeader(f: Fragment, rest: seq<byte>)
    requires f.Valid()
    ensures var all := f.Framed() + rest;
            && RecordBody(all) == Ok(|f.body|)
            && all[5..5 + |f.body|] == f.body && all[5 + |f.body|..] == rest
  {
    var all := f.Framed() + rest;
    assert all[3] == Put16(|f.body|)[0] && all[4] == Put16(|f.body|)[1];
  }

  /** Whatever the cuts, the answer is "need more" until the last byte is there, and then
      exactly the message. */
  lemma {:induction false} Reassembles(have: seq<byte>, fs: seq<Fragment>, m: seq<byte>, k: nat)
    requires IsHello(m) && AllValid(fs) && have + Carried(fs) == m && k <= |Wire(fs)|
    ensures Assemble(have, Wire(fs)[..k]) == if k == |Wire(fs)| then Hello(m) else NeedMore
    decreases |fs|
  {
    var wire := Wire(fs);
    if fs == [] {
      assert have == m;
      ExaminePrefix(m, have);
    } else {
      var f := fs[0];
      assert have + f.body + Carried(fs[1..]) == m;
      assert have <= m && have != m;
      ExaminePrefix(m, have);
      NextOfFramed(have, f, Wire(fs[1..]), k);
      if k >= 5 + |f.body| {
        Reassembles(have + f.body, fs[1..], m, k - 5 - |f.body|);
      }
    }
  }

  lemma NextOfFramed(have: seq<byte>, f: Fragment, tail: seq<byte>, k: nat)
    requires f.Valid() && k <= 5 + |f.body| + |tail| && Examine(have).NeedMore? && |have| + |f.body| <= HELLO_MAX
    ensures var rest := (f.Framed() + tail)[..k];
            if k < 5 + |f.body| then Next(have, rest) == Err(NeedMore)
            else Next(have, rest) == Ok(|f.body|)
                 && rest[5..5 + |f.body|] == f.body && rest[5 + |f.body|..] == tail[..k - 5 - |f.body|]
  {
    var wire := f.Framed() + tail;
    FramedHeader(f, tail);
    var rest := wire[..k];
    if k >= 5 {
      assert RecordBody(rest) == RecordBody(wire);
      if k >= 5 + |f.body| {
        assert rest[5..5 + |f.body|] == wire[5..5 + |f.body|];
        assert rest[5 + |f.body|..] == wire[5 + |f.body|..][..k - 5 - |f.body|];
      }
    }
  }

  /** For the engine's buffer, whatever follows the message in it. */
  lemma ReassemblesInput(fs: seq<Fragment>, m: seq<byte>, k: nat, more: seq<byte>)
    requires IsHello(m) && AllValid(fs) && Carried(fs) == m && |Wire(fs)| + |more| <= IN_CAP
    ensures k < |Wire(fs)| ==> AssembleInput(Wire(fs)[..k]) == NeedMore
    ensures AssembleInput(Wire(fs) + more) == Hello(m)
  {
    assert [] + Carried(fs) == m;
    if k < |Wire(fs)| {
      Reassembles([], fs, m, k);
    }
    Reassembles([], fs, m, |Wire(fs)|);
    assert Wire(fs)[..|Wire(fs)|] == Wire(fs);
    AssembleStable([], Wire(fs), more);
  }
}
