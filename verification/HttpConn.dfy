/**
 The objects of crates/wasix-net/src/http/wire.rs: a buffered connection read in pieces of any
 size, the pool of idle connections, and the body that hands its connection back.
 */
module HttpConn {
  import opened Bytes
  import opened HttpBody
  import Head = HttpHead
  import Utf8

  const MAX_IDLE := 8

  // ----- A buffered connection -----

  class Conn {
    // read from the socket but not handed out yet
    var buffer: seq<byte>
    // what the peer still sends before it closes
    var wire: seq<byte>

    constructor (wire: seq<byte>)
      ensures buffer == [] && Stream() == wire
    {
      buffer, this.wire := [], wire;
    }

    ghost function Stream(): seq<byte>
      reads this
    {
      buffer + wire
    }

    /** `fill_buf`: a read of an open socket gives at least one byte, and as many as it likes. */
    method Fill()
      modifies this
      ensures Stream() == old(Stream())
      ensures buffer == [] ==> Stream() == []
    {
      if buffer == [] && wire != [] {
        var n: nat :| 0 < n <= |wire|;
        buffer, wire := wire[..n], wire[n..];
      }
    }

    method Consume(n: nat)
      requires n <= |buffer|
      modifies this`buffer
      ensures old(Stream()) == old(buffer)[..n] + Stream() && buffer == old(buffer)[n..]
    {
      buffer := buffer[n..];
    }

    /** `read` into the first `want` bytes of the buffer. */
    method Read(buf: array<byte>, want: nat) returns (n: nat)
      requires 0 < want <= buf.Length
      modifies this, buf
      ensures n <= want && (n == 0 <==> old(Stream()) == [])
      ensures old(Stream()) == buf[..n] + Stream()
      ensures buf[n..] == old(buf[..])[n..]
    {
      Fill();
      n := Min(want, |buffer|);
      Store(buf, buffer[..n]);
      Consume(n);
    }

    /** `take(MAX_LINE).read_until(b'\n')`. */
    method ReadUntil() returns (line: seq<byte>)
      modifies this
      ensures line == old(Stream())[..Reach(old(Stream()))]
      ensures Stream() == old(Stream())[Reach(old(Stream()))..]
    {
      ghost var s := Stream();
      line := [];
      while |line| < MAX_LINE
        invariant |line| <= MAX_LINE && s == line + Stream() && 10 !in line
        decreases MAX_LINE - |line|
      {
        Fill();
        if buffer == [] {
          assert s == line;
          break;
        }
        var n := Min(|buffer|, MAX_LINE - |line|);
        var part := buffer[..n];
        var k := NewlineAt(part);
        if k < n {
          Consume(k + 1);
          LineFound(s, line, part[..k + 1], Stream());
          line := line + part[..k + 1];
          return;
        }
        Consume(n);
        line := line + part;
      }
      LineMissing(s, line, Stream());
    }

    /** `read_line`. */
    method NextLine() returns (r: Result<string, IoError>)
      modifies this
      ensures Scan(r, Stream()) == ReadLine(old(Stream()))
    {
      var line := ReadUntil();
      ghost var taken := line;
      if line == [] {
        return Err(UnexpectedEof);
      }
      if line[|line| - 1] != 10 {
        return Err(if |line| >= MAX_LINE then InvalidData else UnexpectedEof);
      }
      while line != [] && LineBreak(line[|line| - 1])
        invariant Chomp(line) == Chomp(taken)
      {
        line := line[..|line| - 1];
      }
      var text := Utf8.Decode(line);
      return if text.Some? then Ok(text.value) else Err(InvalidData);
    }

    /** The header lines of one head. */
    method NextHeaders() returns (r: Result<seq<Head.Header>, IoError>)
      modifies this
      ensures Scan(r, Stream()) == Head.ReadHeaders(old(Stream()), [])
    {
      hide ReadLine, Head.TakeLine;
      var headers: seq<Head.Header> := [];
      ghost var s := Stream();
      while true
        invariant Head.ReadHeaders(s, []) == Head.ReadHeaders(Stream(), headers)
        decreases |Stream()|
      {
        var line := NextLine();
        if line.Err? {
          return Err(line.error);
        }
        if line.value == "" {
          return Ok(headers);
        }
        var more := Head.TakeLine(line.value, headers);
        if more.None? {
          return Err(InvalidData);
        }
        headers := more.value;
      }
    }

    /** `read_head`. */
    method NextHead() returns (r: Result<Head.Head, IoError>)
      modifies this
      ensures Scan(r, Stream()) == Head.ReadHead(old(Stream()))
    {
      hide ReadLine, Head.ParseStatus, Head.ReadHeaders;
      ghost var s := Stream();
      while true
        invariant Head.ReadHead(s) == Head.ReadHead(Stream())
        decreases |Stream()|
      {
        var line := NextLine();
        if line.Err? {
          return Err(line.error);
        }
        var status := Head.ParseStatus(line.value);
        if status.None? {
          return Err(InvalidData);
        }
        var headers := NextHeaders();
        if headers.Err? {
          return Err(headers.error);
        }
        if !Head.Interim(status.value.code) {
          return Ok(Head.Head(status.value.code, status.value.reason, headers.value,
                              status.value.version == "HTTP/1.0"));
        }
      }
    }

    /** The size line of the next chunk. */
    method NextChunkSize(first: bool) returns (r: Result<nat, IoError>)
      modifies this
      ensures Scan(r, Stream()) == NextSize(first, old(Stream()))
    {
      hide ReadLine, SizeOf;
      if !first {
        var end := NextLine();
        if end.Err? {
          return Err(end.error);
        }
        if end.value != "" {
          return Err(InvalidData);
        }
      }
      var line := NextLine();
      if line.Err? {
        return Err(line.error);
      }
      var size := SizeOf(line.value);
      return if size.Some? then Ok(size.value) else Err(InvalidData);
    }

    /** The trailers, up to the empty line. */
    method SkipTrailers() returns (r: Result<(), IoError>)
      modifies this
      ensures Scan(r, Stream()) == Trailers(old(Stream()))
    {
      hide ReadLine;
      ghost var s := Stream();
      while true
        invariant Trailers(s) == Trailers(Stream())
        decreases |Stream()|
      {
        var line := NextLine();
        if line.Err? {
          return Err(line.error);
        }
        if line.value == "" {
          return Ok(());
        }
      }
    }
  }

  method Store(buf: array<byte>, x: seq<byte>)
    requires |x| <= buf.Length
    modifies buf
    ensures buf[..|x|] == x && buf[|x|..] == old(buf[..])[|x|..]
  {
    forall i | 0 <= i < |x| {
      buf[i] := x[i];
    }
  }

  lemma LineFound(s: seq<byte>, line: seq<byte>, part: seq<byte>, rest: seq<byte>)
    requires s == line + (part + rest) && 10 !in line && part != [] && |line + part| <= MAX_LINE
    requires part[|part| - 1] == 10 && forall j :: 0 <= j < |part| - 1 ==> part[j] != 10
    ensures s[..Reach(s)] == line + part && s[Reach(s)..] == rest
  {
    var n := |line + part|;
    assert s == (line + part) + rest;
    assert forall j :: 0 <= j < |line| ==> s[j] == line[j] && line[j] in line;
    assert forall j :: |line| <= j < n - 1 ==> s[j] == part[j - |line|];
    assert s[n - 1] == 10;
    NewlineUnique(s, n - 1);
  }

  lemma LineMissing(s: seq<byte>, line: seq<byte>, rest: seq<byte>)
    requires s == line + rest && 10 !in line && (|line| == MAX_LINE || (rest == [] && |line| < MAX_LINE))
    ensures s[..Reach(s)] == line && s[Reach(s)..] == rest
  {
    assert forall j :: 0 <= j < |line| ==> s[j] == line[j] && line[j] in line;
    assert |line| <= NewlineAt(s);
  }

  // ----- Idle connections -----

  class Pool {
    var idle: seq<(string, Conn)>

    constructor ()
      ensures Valid() && idle == []
    {
      idle := [];
    }

    ghost function Conns(): set<Conn>
      reads this
    {
      set e | e in idle :: e.1
    }

    /** At most eight connections, none of them twice, and nothing read ahead on any. */
    ghost predicate Valid()
      reads this, Conns()
    {
      && |idle| <= MAX_IDLE
      && (forall k :: 0 <= k < |idle| ==> idle[k].1.buffer == [])
      && (forall i, k :: 0 <= i < k < |idle| ==> idle[i].1 != idle[k].1)
    }

    /** The end of `finish`: the oldest entry makes room. */
    method Give(key: string, conn: Conn)
      requires Valid() && conn !in Conns() && conn.buffer == []
      modifies this
      ensures Valid() && idle == Returned(old(idle), key, conn)
      ensures idle == old(idle)[if |old(idle)| == 8 then 1 else 0..] + [(key, conn)]
    {
      if |idle| == MAX_IDLE {
        idle := idle[1..];
      }
      idle := idle + [(key, conn)];
    }

    /** `take_idle`: the youngest connection for the key. */
    method Take(key: string) returns (conn: Option<Conn>)
      requires Valid()
      modifies this
      ensures Valid()
      ensures conn.None? ==> idle == old(idle) && forall e :: e in idle ==> e.0 != key
      ensures conn.Some? ==>
                exists i :: && 0 <= i < |old(idle)| && old(idle)[i] == (key, conn.value)
                            && idle == old(idle)[..i] + old(idle)[i + 1..]
                            && forall k :: i < k < |old(idle)| ==> old(idle)[k].0 != key
      ensures conn.Some? ==> conn.value !in Conns() && conn.value.buffer == []
    {
      var i := |idle|;
      while i > 0
        invariant 0 <= i <= |idle| && idle == old(idle)
        invariant forall k :: i <= k < |idle| ==> idle[k].0 != key
      {
        i := i - 1;
        if idle[i].0 == key {
          var c := idle[i].1;
          idle := idle[..i] + idle[i + 1..];
          assert old(idle)[i] == (key, c);
          return Some(c);
        }
      }
      return None;
    }
  }

  ghost function Returned(idle: seq<(string, Conn)>, key: string, conn: Conn): seq<(string, Conn)> {
    (if |idle| == MAX_IDLE then idle[1..] else idle) + [(key, conn)]
  }
}
