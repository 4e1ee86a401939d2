/**
 The response body of crates/wasix-net/src/http/wire.rs as the object the caller reads, and
 the part of an exchange that follows the request (crates/wasix-net/src/http/mod.rs).
 */
module HttpClient {
  import opened Bytes
  import opened HttpBody
  import opened HttpConn
  import Head = HttpHead
  import opened HttpReuse
  import Messages = HttpMessages

  /** What a call of `read` reports, as an event of the model. */
  function EventOf(r: Result<nat, IoError>, buf: seq<byte>): Event
    requires r.Ok? ==> r.value <= |buf|
  {
    match r
    case Err(x) => Fault(x)
    case Ok(n) => if n == 0 then End else Data(buf[..n])
  }

  class Body {
    // the connection the body is on, also after it has been handed back
    ghost const link: Conn
    var conn: Option<Conn>
    var state: State
    var reuse: Option<(Pool, string)>

    ghost function Pools(): set<Pool>
      reads this
    {
      if reuse.Some? then {reuse.value.0} else {}
    }

    /** A body that is not done has its connection, and that connection is not idle. */
    ghost predicate Open()
      reads this, Pools(), set p, c | p in Pools() && c in p.Conns() :: c
    {
      && HttpBody.Valid(state) && conn == Some(link)
      && (reuse.Some? ==> reuse.value.0.Valid() && link !in reuse.value.0.Conns())
    }

    ghost predicate Valid()
      reads this, Pools(), set p, c | p in Pools() && c in p.Conns() :: c
    {
      if state == Done then conn == None && reuse == None else Open()
    }

    /** The pool after a call: changed only if the call met the end of the body. */
    ghost predicate Settled(pool: Pool, key: string, idle: seq<(string, Conn)>)
      reads this, link, pool, pool.Conns()
    {
      pool.Valid() && pool.idle == HandedBack(state == Done, idle, key, link)
    }

    /** `Body::new`. A body without bytes is finished at once. */
    constructor (conn: Conn, framing: Head.Framing, reuse: Option<(Pool, string)>)
      requires reuse.Some? ==> reuse.value.0.Valid() && conn !in reuse.value.0.Conns()
      modifies if reuse.Some? then {reuse.value.0} else {}
      ensures Valid() && link == conn && state == Head.Start(framing)
      ensures reuse.Some? ==> Settled(reuse.value.0, reuse.value.1, old(reuse.value.0.idle))
      ensures this.reuse == if state == Done || framing == Head.ToEof then None else reuse
    {
      link := conn;
      this.conn := Some(conn);
      state := Head.Start(framing);
      this.reuse := if framing == Head.ToEof then None else reuse;
      new;
      if state == Done {
        Finish();
      }
    }

    /** `finish`: the connection goes back to the pool if nothing was read ahead on it. */
    method Finish()
      requires Open()
      modifies this, Pools()
      ensures Valid() && state == Done
      ensures old(reuse).Some? ==> Settled(old(reuse).value.0, old(reuse).value.1, old(reuse.value.0.idle))
    {
      state := Done;
      var c, to := conn, reuse;
      conn, reuse := None, None;
      if c.Some? && to.Some? {
        if c.value.buffer == [] {
          to.value.0.Give(to.value.1, c.value);
        }
      }
    }

    /** Data of a body with a length. */
    method ReadLength(buf: array<byte>) returns (r: Result<nat, IoError>)
      requires Open() && state.Length? && buf.Length > 0
      modifies this, link, buf, Pools()
      ensures Valid() && (r.Ok? ==> r.value <= buf.Length)
      ensures Reads(old(state), old(link.Stream()), buf.Length, EventOf(r, buf[..]), state, link.Stream())
      ensures old(reuse).Some? ==> Settled(old(reuse).value.0, old(reuse).value.1, old(reuse.value.0.idle))
      ensures state != Done ==> reuse == old(reuse)
    {
      var left := state.left;
      var n := conn.value.Read(buf, Min(buf.Length, left));
      if n == 0 {
        return Err(UnexpectedEof);
      }
      if left == n {
        Finish();
      } else {
        state := Length(left - n);
      }
      return Ok(n);
    }

    /** Data of a body that ends with the connection, which is never handed back. */
    method ReadToEnd(buf: array<byte>) returns (r: Result<nat, IoError>)
      requires Open() && state.Eof? && buf.Length > 0
      modifies this, link, buf, Pools()
      ensures Valid() && (r.Ok? ==> r.value <= buf.Length)
      ensures Reads(old(state), old(link.Stream()), buf.Length, EventOf(r, buf[..]), state, link.Stream())
      ensures old(reuse).Some? ==> Settled(old(reuse).value.0, old(reuse).value.1, old(reuse.value.0.idle))
      ensures state != Done ==> reuse == old(reuse)
    {
      var n := conn.value.Read(buf, buf.Length);
      if n == 0 {
        Finish();
      }
      return Ok(n);
    }

    /** Data of a chunk, behind its size line if that has not been read yet. */
    method ReadChunk(buf: array<byte>) returns (r: Result<nat, IoError>)
      requires Open() && state.Chunk? && buf.Length > 0
      modifies this, link, buf, Pools()
      ensures Valid() && (r.Ok? ==> r.value <= buf.Length)
      ensures Reads(old(state), old(link.Stream()), buf.Length, EventOf(r, buf[..]), state, link.Stream())
      ensures old(reuse).Some? ==> Settled(old(reuse).value.0, old(reuse).value.1, old(reuse.value.0.idle))
      ensures state != Done ==> reuse == old(reuse)
    {
      hide NextSize, Trailers;
      var left := state.left;
      if left == 0 {
        var size := conn.value.NextChunkSize(state.first);
        if size.Err? {
          return Err(size.error);
        }
        left := size.value;
        if left == 0 {
          var end := conn.value.SkipTrailers();
          if end.Err? {
            return Err(end.error);
          }
          Finish();
          return Ok(0);
        }
      }
      var n := conn.value.Read(buf, Min(buf.Length, left));
      if n == 0 {
        return Err(UnexpectedEof);
      }
      state := Chunk(left - n, false);
      return Ok(n);
    }

    /** `read`: one step of the model, whatever the connection hands over at a time. The pool
        changes only in the call that meets the end of the body. */
    method Read(buf: array<byte>) returns (r: Result<nat, IoError>)
      requires Valid()
      modifies this, link, buf, Pools()
      ensures Valid() && (r.Ok? ==> r.value <= buf.Length)
      ensures buf.Length == 0 ==> r == Ok(0) && state == old(state) && link.Stream() == old(link.Stream())
      ensures buf.Length > 0 ==>
                Reads(old(state), old(link.Stream()), buf.Length, EventOf(r, buf[..]), state, link.Stream())
      ensures old(reuse).Some? ==> Settled(old(reuse).value.0, old(reuse).value.1, old(reuse.value.0.idle))
      ensures state != Done ==> reuse == old(reuse)
      ensures old(state) == Done ==> unchanged(this, link)
    {
      if buf.Length == 0 || state == Done {
        return Ok(0);
      }
      match state {
        case Eof => r := ReadToEnd(buf);
        case Length(_) => r := ReadLength(buf);
        case Chunk(_, _) => r := ReadChunk(buf);
      }
    }
  }

  /** An exchange once the request is sent: the head, and the body on the same connection. The
      connection is to be handed back only when the head lets it be kept alive. */
  method Respond(conn: Conn, method_: string, pool: Pool, key: string)
    returns (r: Result<(Head.Head, Body), IoError>)
    requires pool.Valid() && conn !in pool.Conns()
    modifies conn, pool
    ensures r.Err? ==> Messages.Receive(old(conn.Stream()), method_) == Err(r.error)
    ensures r.Err? ==> pool.Valid() && pool.idle == old(pool.idle)
    ensures r.Ok? ==>
              var (head, body) := r.value;
              && fresh(body) && body.Valid() && body.link == conn
              && Head.FramingOf(head, method_).Ok? && body.state == Head.Start(Head.FramingOf(head, method_).value)
              && Messages.Receive(old(conn.Stream()), method_) == Ok((head, Decode(body.state, conn.Stream())))
              && (if Persists(head) then body.Settled(pool, key, old(pool.idle)) else pool.idle == old(pool.idle))
              && body.reuse == if Persists(head) && body.state !in {Done, Eof} then Some((pool, key)) else None
  {
    hide Decode, Head.ReadHead, Head.FramingOf, Head.KeepAlive, Persists;
    var head := conn.NextHead();
    if head.Err? {
      return Err(head.error);
    }
    KeepAliveExact(head.value);
    var framing := Head.FramingOf(head.value, method_);
    if framing.Err? {
      return Err(framing.error);
    }
    var reuse := if Head.KeepAlive(head.value) then Some((pool, key)) else None;
    var body := new Body(conn, framing.value, reuse);
    return Ok((head.value, body));
  }

  /** The idle list after a call that met the end of the body, or did not. */
  ghost function HandedBack(ended: bool, idle: seq<(string, Conn)>, key: string, conn: Conn): seq<(string, Conn)>
    reads conn
  {
    if ended && conn.buffer == [] then Returned(idle, key, conn) else idle
  }

  /** What a reader that goes on to the end is told about the rest of a body. */
  function Verdict(o: Outcome): Result<(), IoError> {
    match o
    case Complete(_, _) => Ok(())
    case Cut(_) => Err(UnexpectedEof)
    case Bad(_) => Err(InvalidData)
  }

  lemma FaultStays(a: State, s: seq<byte>, room: nat, x: IoError, b: State, t: seq<byte>)
    requires Reads(a, s, room, Fault(x), b, t)
    ensures b == a && b != Done
  {
    hide NextSize, Trailers;
  }

  lemma StepFurther(a: State, s: seq<byte>, room: nat, e: Event, b: State, t: seq<byte>)
    requires HttpBody.Valid(a) && Reads(a, s, room, e, b, t)
    ensures e.Data? ==> |t| < |s| && Decode(a, s) == After(e.bytes, Decode(b, t))
    ensures e == End ==> b == Done && Decode(a, s) == Complete([], t)
    ensures e.Fault? ==> Decode(a, s) == if e.error == UnexpectedEof then Cut([]) else Bad([])
    ensures e.Fault? ==> b == a && b != Done
  {
    hide Reads, Decode;
    match e {
      case Data(_) =>
        DataTakes(a, s, room, e, b, t);
        DataAgrees(a, s, room, e, b, t);
      case End => EndAgrees(a, s, room, e, b, t);
      case Fault(x) =>
        FaultStays(a, s, room, x, b, t);
        if x == UnexpectedEof {
          FaultAgrees(a, s, room, e, b, t);
        } else {
          MalformedIsBad(a, s, room, e, b, t);
        }
    }
  }

  /** Reads a body until no more comes, the k-th call with room for `size(k)` bytes. Whatever
      those sizes are and however little the connection hands over at a time, the caller gets
      the data the body stands for and learns whether it was complete, and the connection is
      handed back exactly if the end was met with nothing read ahead. */
  method ReadWhole(body: Body, size: nat -> nat) returns (data: seq<byte>, r: Result<(), IoError>)
    requires body.Valid() && forall k :: 0 < size(k)
    modifies body, body.link, body.Pools()
    ensures body.Valid()
    ensures var o := Decode(old(body.state), old(body.link.Stream()));
            && data == o.body && r == Verdict(o)
            && (o.Complete? ==> body.state == Done && body.link.Stream() == o.rest)
    ensures old(body.reuse).Some? ==>
              body.Settled(old(body.reuse).value.0, old(body.reuse).value.1, old(body.reuse.value.0.idle))
    ensures r.Err? ==> body.state != Done
    ensures old(body.state) == Done ==> unchanged(body, body.link)
  {
    hide Reads, Decode;
    data := [];
    var k := 0;
    ghost var whole := Decode(body.state, body.link.Stream());
    NothingAfter(whole);
    while true
      invariant body.Valid()
      invariant whole == After(data, Decode(body.state, body.link.Stream()))
      invariant old(body.reuse).Some? ==>
                  body.Settled(old(body.reuse).value.0, old(body.reuse).value.1, old(body.reuse.value.0.idle))
      invariant body.state != Done ==> body.reuse == old(body.reuse)
      invariant old(body.state) == Done ==> unchanged(body, body.link)
      decreases |body.link.Stream()|
    {
      var buf := new byte[size(k)];
      ghost var a, s := body.state, body.link.Stream();
      var n := body.Read(buf);
      StepFurther(a, s, buf.Length, EventOf(n, buf[..]), body.state, body.link.Stream());
      if n.Err? {
        assert data + [] == data;
        return data, Err(n.error);
      }
      if n.value == 0 {
        assert data + [] == data;
        return data, Ok(());
      }
      AfterAfter(data, buf[..n.value], Decode(body.state, body.link.Stream()));
      data := data + buf[..n.value];
      k := k + 1;
    }
  }

  /** One whole exchange: the head and the complete body, or the error that ended it. The
      connection is idle afterwards exactly if the body was complete and did not end with the
      connection, the head lets it be kept alive, and nothing was read ahead. */
  method Exchange(conn: Conn, method_: string, pool: Pool, key: string, size: nat -> nat)
    returns (r: Result<(Head.Head, seq<byte>), IoError>)
    requires pool.Valid() && conn !in pool.Conns() && forall k :: 0 < size(k)
    modifies conn, pool
    ensures pool.Valid()
    ensures match Messages.Receive(old(conn.Stream()), method_)
            case Err(e) => r == Err(e)
            case Ok((head, Complete(data, rest))) => r == Ok((head, data)) && conn.Stream() == rest
            case Ok((_, o)) => Verdict(o).Err? && r == Err(Verdict(o).error)
    ensures pool.idle == if r.Ok? && Persists(r.value.0) && conn.buffer == []
                            && Head.FramingOf(r.value.0, method_) != Ok(Head.ToEof)
                         then old(pool.idle)[if |old(pool.idle)| == 8 then 1 else 0..] + [(key, conn)]
                         else old(pool.idle)
  {
    hide Decode, Messages.Receive, Head.FramingOf, Persists;
    var response := Respond(conn, method_, pool, key);
    if response.Err? {
      return Err(response.error);
    }
    var (head, body) := response.value;
    var data, end := ReadWhole(body, size);
    return if end.Ok? then Ok((head, data)) else Err(end.error);
  }
}
