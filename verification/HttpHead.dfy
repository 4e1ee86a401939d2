/**
 Response heads of crates/wasix-net/src/http/wire.rs: status line, header lines with obsolete
 folding, interim responses, and the choice of the body's framing.
 */
module HttpHead {
  import opened Bytes
  import opened Text
  import opened HttpBody

  const MAX_HEADERS := 256

  datatype Header = Header(name: string, value: string)

  datatype Head = Head(status: nat, reason: string, headers: seq<Header>, http10: bool)

  datatype Status = Status(version: string, code: nat, reason: string)

  datatype Framing = Empty | Sized(length: nat) | Chunked | ToEof

  // ----- Heads -----

  /** The status line: three parts, the last of which may be missing. */
  function ParseStatus(line: string): Option<Status> {
    var k := IndexOf(line, ' ');
    if !("HTTP/1." <= line[..k]) || k == |line| then None
    else
      var rest := line[k + 1..];
      var j := IndexOf(rest, ' ');
      match ParseUnsigned(rest[..j], 10, 65536)
      case None => None
      case Some(code) =>
        if 100 <= code < 1000 then Some(Status(line[..k], code, if j == |rest| then "" else rest[j + 1..]))
        else None
  }

  predicate NameChar(c: char) {
    '!' <= c <= '~' && c !in "()<>@,;:\\\"/[]?={}"
  }

  predicate ValidHeader(name: string, value: string) {
    && name != "" && (forall k :: 0 <= k < |name| ==> NameChar(name[k]))
    && '\r' !in value && '\n' !in value && '\0' !in value
  }

  predicate Folded(line: string) {
    line != "" && (line[0] == ' ' || line[0] == '\t')
  }

  /** What a header line adds to the headers so far. */
  function TakeLine(line: string, headers: seq<Header>): Option<seq<Header>> {
    if Folded(line) then
      if headers == [] then None
      else
        var last := headers[|headers| - 1];
        Some(headers[..|headers| - 1] + [last.(value := last.value + " " + Trim(line))])
    else
      var k := IndexOf(line, ':');
      if k == |line| || !ValidHeader(line[..k], line[k + 1..]) || |headers| == MAX_HEADERS then None
      else Some(headers + [Header(line[..k], Trim(line[k + 1..]))])
  }

  function ReadHeaders(s: seq<byte>, headers: seq<Header>): (r: Scan<seq<Header>>)
    ensures r.result.Ok? ==> |r.rest| < |s|
    decreases |s|
  {
    var line := ReadLine(s);
    match line.result
    case Err(e) => Scan(Err(e), line.rest)
    case Ok(text) =>
      if text == "" then Scan(Ok(headers), line.rest)
      else
        match TakeLine(text, headers)
        case None => Scan(Err(InvalidData), line.rest)
        case Some(more) => ReadHeaders(line.rest, more)
  }

  /** Responses that only announce another one. */
  predicate Interim(code: nat) {
    100 <= code < 200 && code != 101
  }

  /** `read_head`. */
  function ReadHead(s: seq<byte>): Scan<Head>
    decreases |s|
  {
    var line := ReadLine(s);
    match line.result
    case Err(e) => Scan(Err(e), line.rest)
    case Ok(text) =>
      match ParseStatus(text)
      case None => Scan(Err(InvalidData), line.rest)
      case Some(status) =>
        var headers := ReadHeaders(line.rest, []);
        match headers.result
        case Err(e) => Scan(Err(e), headers.rest)
        case Ok(hs) =>
          if Interim(status.code) then ReadHead(headers.rest)
          else Scan(Ok(Head(status.code, status.reason, hs, status.version == "HTTP/1.0")), headers.rest)
  }

  // ----- Looking headers up -----

  /** The value of the first header of that name. */
  function Lookup(headers: seq<Header>, name: string): Option<string> {
    if headers == [] then None
    else if SameName(headers[0].name, name) then Some(headers[0].value)
    else Lookup(headers[1..], name)
  }

  /** The comma-separated elements of all headers of that name. */
  function Elements(headers: seq<Header>, name: string): seq<string> {
    if headers == [] then []
    else (if SameName(headers[0].name, name) then Split(headers[0].value, ',') else []) + Elements(headers[1..], name)
  }

  predicate HasToken(headers: seq<Header>, name: string, token: string) {
    exists k :: 0 <= k < |Elements(headers, name)| && SameName(Trim(Elements(headers, name)[k]), token)
  }

  predicate KeepAlive(head: Head) {
    if head.http10 then HasToken(head.headers, "connection", "keep-alive")
    else !HasToken(head.headers, "connection", "close")
  }

  // ----- Framing -----

  predicate Bodiless(status: nat, method_: string) {
    SameName(method_, "HEAD") || status == 101 || status == 204 || status == 304
  }

  /** The responses without a body: to HEAD, in any case, and those of three codes. */
  predicate NoBody(status: nat, method_: string) {
    SameLetters(method_, "HEAD") || status in {101, 204, 304}
  }

  lemma BodilessExact(status: nat, method_: string)
    ensures Bodiless(status, method_) <==> NoBody(status, method_)
  {
    SameNameExact(method_, "HEAD");
  }

  function LastElement(value: string): string {
    match LastIndexOf(value, ',')
    case None => value
    case Some(k) => value[k + 1..]
  }

  function LengthOf(element: string): Option<nat> {
    ParseUnsigned(Trim(element), 10, TWO_TO_THE_64)
  }

  /** `framing`. */
  function FramingOf(head: Head, method_: string): Result<Framing, IoError> {
    if Bodiless(head.status, method_) then Ok(Empty)
    else
      match Lookup(head.headers, "transfer-encoding")
      case Some(te) => Ok(if SameName(Trim(LastElement(te)), "chunked") then Chunked else ToEof)
      case None =>
        var lengths := Elements(head.headers, "content-length");
        if lengths == [] then Ok(ToEof)
        else
          match LengthOf(lengths[0])
          case None => Err(InvalidData)
          case Some(n) =>
            if forall k :: 0 <= k < |lengths| ==> LengthOf(lengths[k]) == Some(n) then Ok(Sized(n))
            else Err(InvalidData)
  }

  /** `Body::new`: the state a framing starts in. */
  function Start(f: Framing): (a: State)
    ensures Valid(a)
  {
    match f
    case Empty => Done
    case Sized(n) => if n == 0 then Done else Length(n)
    case Chunked => Chunk(0, true)
    case ToEof => Eof
  }

  /** Only a body that ends with the connection starts so; one of length 0 is finished at once. */
  lemma StartExact(f: Framing)
    ensures Start(f) == Eof <==> f == ToEof
    ensures Start(f) == Done <==> f == Empty || f == Sized(0)
    ensures forall n: nat :: Start(f) == Length(n) <==> n > 0 && f == Sized(n)
    ensures f == Chunked ==> Start(f) == Chunk(0, true)
  {
  }

  // ----- What decides the framing -----

  predicate Named(headers: seq<Header>, name: string) {
    exists k :: 0 <= k < |headers| && SameName(headers[k].name, name)
  }

  lemma {:induction false} LookupNamed(headers: seq<Header>, name: string)
    ensures Lookup(headers, name).Some? <==> Named(headers, name)
    ensures !Named(headers, name) ==> Elements(headers, name) == []
  {
    if headers != [] {
      LookupNamed(headers[1..], name);
      if Named(headers[1..], name) {
        var k :| 0 <= k < |headers[1..]| && SameName(headers[1..][k].name, name);
        assert SameName(headers[k + 1].name, name);
      }
      if k :| 0 <= k < |headers| && SameName(headers[k].name, name) && k > 0 {
        assert headers[1..][k - 1] == headers[k];
      }
    }
  }

  lemma {:induction false} ElementsAppend(a: seq<Header>, b: seq<Header>, name: string)
    ensures Elements(a + b, name) == Elements(a, name) + Elements(b, name)
  {
    if a == [] {
      assert a + b == b;
    } else {
      assert (a + b)[1..] == a[1..] + b;
      ElementsAppend(a[1..], b, name);
    }
  }

  lemma {:induction false} LookupAppend(a: seq<Header>, b: seq<Header>, name: string)
    requires !Named(a, name)
    ensures Lookup(a + b, name) == Lookup(b, name)
  {
    if a == [] {
      assert a + b == b;
    } else {
      assert (a + b)[1..] == a[1..] + b;
      assert !SameName(a[0].name, name);
      forall k | 0 <= k < |a[1..]| ensures !SameName(a[1..][k].name, name) {
        assert a[1..][k] == a[k + 1];
      }
      LookupAppend(a[1..], b, name);
    }
  }

  /** A length is used exactly when there is one and every announcement of one agrees, and
      nothing that comes before it decides otherwise. */
  lemma SizedExactly(head: Head, method_: string, n: nat)
    ensures FramingOf(head, method_) == Ok(Sized(n)) <==>
            && !Bodiless(head.status, method_) && !Named(head.headers, "transfer-encoding")
            && var lengths := Elements(head.headers, "content-length");
            && lengths != [] && forall k :: 0 <= k < |lengths| ==> LengthOf(lengths[k]) == Some(n)
  {
    LookupNamed(head.headers, "transfer-encoding");
  }

  /** Decimal digits that come to n, leading zeros included. */
  predicate Spells(s: string, n: nat) {
    s != "" && Digits(s, 10) == Some(n)
  }

  /** One Content-Length header among others is the body's length. */
  lemma OneLength(head: Head, method_: string, before: seq<Header>, field: Header, after: seq<Header>, n: nat)
    requires head.headers == before + [field] + after && !Bodiless(head.status, method_)
    requires SameName(field.name, "content-length") && Spells(field.value, n) && n < TWO_TO_THE_64
    requires !Named(head.headers, "transfer-encoding")
    requires !Named(before, "content-length") && !Named(after, "content-length")
    ensures FramingOf(head, method_) == Ok(Sized(n))
  {
    var name := "content-length";
    ElementsAppend(before + [field], after, name);
    ElementsAppend(before, [field], name);
    LookupNamed(before, name);
    LookupNamed(after, name);
    assert [field][1..] == [];
    assert Elements([field], name) == Split(field.value, ',') + [];
    SpelledElement(field.value, n);
    SizedExactly(head, method_, n);
  }

  lemma SpelledElement(s: string, n: nat)
    requires Spells(s, n) && n < TWO_TO_THE_64
    ensures Split(s, ',') == [s] && LengthOf(s) == Some(n)
  {
    DigitsOnly(s, 10);
    forall k | 0 <= k < |s| ensures s[k] != ',' && !White(s[k]) && s[k] != '+' {
      assert Digit(s[k], 10).Some?;
    }
    IndexUnique(s, ',', |s|);
    TrimPadded("", s, "");
    assert "" + s + "" == s;
  }

  /** A list of codings that ends in chunked, in any case. */
  predicate ChunkedBehind(value: string, front: string, pad: string, coding: string) {
    && value == front + (pad + coding) && (front != "" ==> front[|front| - 1] == ',')
    && AllWhite(pad) && SameName(coding, "chunked")
  }

  ghost predicate EndsInChunked(value: string) {
    exists front: string, pad: string, coding: string :: ChunkedBehind(value, front, pad, coding)
  }

  lemma CodingPlain(coding: string)
    requires SameName(coding, "chunked")
    ensures |coding| == 7 && Trimmed(coding) && ',' !in coding
  {
    var l := Lower(coding);
    assert l == Lower("chunked");
    forall k | 0 <= k < |coding| ensures coding[k] != ',' && !White(coding[k]) {
      assert l[k] == LowerChar(coding[k]);
      assert l[k] == LowerChar("chunked"[k]);
    }
  }

  lemma ChunkedIsLast(value: string)
    requires EndsInChunked(value)
    ensures SameName(Trim(LastElement(value)), "chunked")
  {
    hide SameName, Trim, Trimmed, White;
    var front, pad, coding :| ChunkedBehind(value, front, pad, coding);
    CodingPlain(coding);
    NoComma(pad);
    var last := pad + coding;
    if front == "" {
      assert value == last;
      assert LastIndexOf(value, ',') == None;
    } else {
      LastIndexUnique(value, ',', |front| - 1);
      assert value[|front|..] == last;
    }
    TrimPadded(pad, coding, "");
    assert pad + coding + "" == last;
  }

  lemma NoComma(pad: string)
    requires AllWhite(pad)
    ensures ',' !in pad
  {
  }

  /** A first Transfer-Encoding header that ends in chunked makes the body chunked, whatever
      lengths are announced besides. */
  lemma FirstEncoding(head: Head, method_: string, before: seq<Header>, field: Header, after: seq<Header>)
    requires head.headers == before + [field] + after && !Bodiless(head.status, method_)
    requires SameName(field.name, "transfer-encoding") && EndsInChunked(field.value)
    requires !Named(before, "transfer-encoding")
    ensures FramingOf(head, method_) == Ok(Chunked)
  {
    hide SameName, Trim;
    var name := "transfer-encoding";
    assert before + [field] + after == before + ([field] + after);
    LookupAppend(before, [field] + after, name);
    assert ([field] + after)[0] == field;
    ChunkedIsLast(field.value);
  }
}
