/**
 Whole responses, one behind the other on a connection that is reused: what a server writes
 and what `read_head`, `framing` and the body reader make of it.
 */
module HttpMessages {
  import opened Bytes
  import opened Text
  import opened HttpBody
  import opened HttpEncoding
  import opened HttpHead

  // ----- Heads as text -----

  /** A header line, with the white space around its value, and the lines that continue it. */
  datatype Field = Field(name: string, pad: string, value: string, end: string, folds: seq<string>)

  function FieldLine(f: Field): string {
    f.name + ":" + (f.pad + f.value + f.end)
  }

  predicate GoodField(f: Field) {
    && ValidHeader(f.name, f.pad + f.value + f.end)
    && AllWhite(f.pad) && AllWhite(f.end) && Trimmed(f.value)
    && GoodLine(FieldLine(f)) && GoodFolds(f.folds)
  }

  predicate GoodFolds(folds: seq<string>) {
    forall k :: 0 <= k < |folds| ==> Folded(folds[k]) && GoodLine(folds[k])
  }

  predicate GoodFields(fs: seq<Field>) {
    forall k :: 0 <= k < |fs| ==> GoodField(fs[k])
  }

  function FoldBytes(folds: seq<string>): seq<byte> {
    if folds == [] then [] else LineBytes(folds[0]) + FoldBytes(folds[1..])
  }

  function FieldBytes(f: Field): seq<byte> {
    LineBytes(FieldLine(f)) + FoldBytes(f.folds)
  }

  /** The header lines and the empty line that ends them. */
  function FieldsBytes(fs: seq<Field>): seq<byte> {
    if fs == [] then LineBytes("") else FieldBytes(fs[0]) + FieldsBytes(fs[1..])
  }

  /** A value with its continuations, each behind a single space. */
  function Unfolded(value: string, folds: seq<string>): string
    decreases |folds|
  {
    if folds == [] then value else Unfolded(value + " " + Trim(folds[0]), folds[1..])
  }

  function HeaderOf(f: Field): Header {
    Header(f.name, Unfolded(f.value, f.folds))
  }

  function HeadersOf(fs: seq<Field>): (r: seq<Header>)
    ensures |r| == |fs|
  {
    if fs == [] then [] else [HeaderOf(fs[0])] + HeadersOf(fs[1..])
  }

  datatype HeadText = HeadText(minor: string, code: nat, reason: string, fields: seq<Field>)

  function Version(h: HeadText): string {
    "HTTP/1." + h.minor
  }

  function StatusText(h: HeadText): string {
    Version(h) + (" " + (Numeral(h.code, 10) + (" " + h.reason)))
  }

  predicate GoodHead(h: HeadText) {
    && 100 <= h.code < 1000 && ' ' !in h.minor && GoodLine(StatusText(h))
    && |h.fields| <= MAX_HEADERS && GoodFields(h.fields)
  }

  function HeadBytes(h: HeadText): seq<byte> {
    LineBytes(StatusText(h)) + FieldsBytes(h.fields)
  }

  function HeadOf(h: HeadText): Head {
    Head(h.code, h.reason, HeadersOf(h.fields), Version(h) == "HTTP/1.0")
  }

  lemma FieldTaken(f: Field, headers: seq<Header>)
    requires GoodField(f) && |headers| < MAX_HEADERS
    ensures FieldLine(f) != "" && TakeLine(FieldLine(f), headers) == Some(headers + [Header(f.name, f.value)])
  {
    hide GoodLine, AllWhite, Trimmed, Trim;
    var line, value := FieldLine(f), f.pad + f.value + f.end;
    assert NameChar(f.name[0]) && line[0] == f.name[0];
    forall k | 0 <= k < |f.name| ensures line[k] != ':' {
      assert NameChar(f.name[k]);
    }
    IndexUnique(line, ':', |f.name|);
    assert line[..|f.name|] == f.name && line[|f.name| + 1..] == value;
    TrimPadded(f.pad, f.value, f.end);
  }

  lemma GoodFieldLine(f: Field)
    requires GoodField(f)
    ensures GoodLine(FieldLine(f)) && FieldLine(f) != "" && GoodFolds(f.folds)
  {
  }

  lemma LineStep(f: Field, headers: seq<Header>, rest: seq<byte>)
    requires GoodField(f) && |headers| < MAX_HEADERS
    ensures ReadHeaders(LineBytes(FieldLine(f)) + rest, headers)
            == ReadHeaders(rest, headers + [Header(f.name, f.value)])
  {
    hide ReadLine, LineBytes, GoodLine, TakeLine, FieldLine, GoodField;
    GoodFieldLine(f);
    ReadLineBytes(FieldLine(f), rest);
    FieldTaken(f, headers);
  }

  lemma FoldTaken(fold: string, headers: seq<Header>, h: Header)
    requires Folded(fold)
    ensures fold != ""
    ensures TakeLine(fold, headers + [h]) == Some(headers + [h.(value := h.value + " " + Trim(fold))])
  {
    var all := headers + [h];
    assert all[..|all| - 1] == headers && all[|all| - 1] == h;
  }

  lemma FoldStep(fold: string, headers: seq<Header>, h: Header, rest: seq<byte>)
    requires Folded(fold) && GoodLine(fold)
    ensures ReadHeaders(LineBytes(fold) + rest, headers + [h])
            == ReadHeaders(rest, headers + [h.(value := h.value + " " + Trim(fold))])
  {
    hide ReadLine, LineBytes, GoodLine, TakeLine, Folded, Trim;
    ReadLineBytes(fold, rest);
    FoldTaken(fold, headers, h);
  }

  lemma {:induction false} FoldsTaken(folds: seq<string>, headers: seq<Header>, h: Header, rest: seq<byte>)
    requires GoodFolds(folds)
    ensures ReadHeaders(FoldBytes(folds) + rest, headers + [h])
            == ReadHeaders(rest, headers + [h.(value := Unfolded(h.value, folds))])
    decreases |folds|
  {
    hide ReadHeaders, LineBytes, GoodLine, Folded, Trim;
    if folds == [] {
      assert [] + rest == rest;
    } else {
      var more := FoldBytes(folds[1..]) + rest;
      assert FoldBytes(folds) + rest == LineBytes(folds[0]) + more;
      FoldStep(folds[0], headers, h, more);
      FoldsTaken(folds[1..], headers, h.(value := h.value + " " + Trim(folds[0])), rest);
    }
  }

  /** A header and its continuations. */
  lemma FieldStep(f: Field, headers: seq<Header>, rest: seq<byte>)
    requires GoodField(f) && |headers| < MAX_HEADERS
    ensures ReadHeaders(FieldBytes(f) + rest, headers) == ReadHeaders(rest, headers + [HeaderOf(f)])
  {
    hide ReadHeaders, LineBytes, FieldLine, GoodField, FoldBytes, Unfolded, GoodFolds;
    GoodFieldLine(f);
    var folds := FoldBytes(f.folds);
    assert FieldBytes(f) + rest == LineBytes(FieldLine(f)) + (folds + rest);
    LineStep(f, headers, folds + rest);
    FoldsTaken(f.folds, headers, Header(f.name, f.value), rest);
  }

  lemma FieldsEnd(headers: seq<Header>, tail: seq<byte>)
    ensures ReadHeaders(LineBytes("") + tail, headers) == Scan(Ok(headers), tail)
  {
    hide ReadLine, LineBytes, TakeLine;
    EmptyIsGood();
    ReadLineBytes("", tail);
  }

  lemma BytesStep(fs: seq<Field>, tail: seq<byte>)
    requires fs != []
    ensures FieldsBytes(fs) + tail == FieldBytes(fs[0]) + (FieldsBytes(fs[1..]) + tail)
  {
  }

  lemma HeadersStep(fs: seq<Field>, headers: seq<Header>)
    requires fs != []
    ensures headers + HeadersOf(fs) == headers + [HeaderOf(fs[0])] + HeadersOf(fs[1..])
  {
  }

  lemma {:induction false} FieldsTaken(fs: seq<Field>, headers: seq<Header>, tail: seq<byte>)
    requires GoodFields(fs) && |headers| + |fs| <= MAX_HEADERS
    ensures ReadHeaders(FieldsBytes(fs) + tail, headers) == Scan(Ok(headers + HeadersOf(fs)), tail)
    decreases |fs|
  {
    hide ReadHeaders, LineBytes, FieldBytes, GoodField, HeaderOf;
    if fs == [] {
      FieldsEnd(headers, tail);
      assert headers + [] == headers;
    } else {
      hide FieldsBytes, HeadersOf;
      BytesStep(fs, tail);
      FieldStep(fs[0], headers, FieldsBytes(fs[1..]) + tail);
      FieldsTaken(fs[1..], headers + [HeaderOf(fs[0])], tail);
      HeadersStep(fs, headers);
    }
  }

  lemma StatusParsed(h: HeadText)
    requires GoodHead(h)
    ensures ParseStatus(StatusText(h)) == Some(Status(Version(h), h.code, h.reason))
  {
    hide GoodLine, GoodFields;
    var line, version, code := StatusText(h), Version(h), Numeral(h.code, 10);
    var rest := code + (" " + h.reason);
    IndexUnique(line, ' ', |version|);
    assert line[..|version|] == version && line[|version| + 1..] == rest;
    forall k | 0 <= k < |code| ensures code[k] != ' ' {
      assert Digit(code[k], 10).Some?;
    }
    IndexUnique(rest, ' ', |code|);
    assert rest[..|code|] == code && rest[|code| + 1..] == h.reason;
    ParseNumeral(h.code, 10, 65536);
  }

  /** The codes of final responses, and those of responses that only announce another one. */
  predicate FinalCode(code: nat) {
    code == 101 || 200 <= code < 1000
  }

  predicate AnnouncingCode(code: nat) {
    code == 100 || 102 <= code < 200
  }

  /** A final head is read back exactly. */
  lemma HeadRoundTrip(h: HeadText, tail: seq<byte>)
    requires GoodHead(h) && FinalCode(h.code)
    ensures ReadHead(HeadBytes(h) + tail) == Scan(Ok(HeadOf(h)), tail)
  {
    hide ReadLine, LineBytes, GoodLine, ParseStatus, StatusText, ReadHeaders, FieldsBytes;
    var rest := FieldsBytes(h.fields) + tail;
    assert HeadBytes(h) + tail == LineBytes(StatusText(h)) + rest;
    ReadLineBytes(StatusText(h), rest);
    StatusParsed(h);
    FieldsTaken(h.fields, [], tail);
    assert [] + HeadersOf(h.fields) == HeadersOf(h.fields);
  }

  /** An interim head is passed over. */
  lemma InterimSkipped(h: HeadText, tail: seq<byte>)
    requires GoodHead(h) && AnnouncingCode(h.code)
    ensures ReadHead(HeadBytes(h) + tail) == ReadHead(tail)
  {
    hide ReadLine, LineBytes, GoodLine, ParseStatus, StatusText, ReadHeaders, FieldsBytes;
    var rest := FieldsBytes(h.fields) + tail;
    assert HeadBytes(h) + tail == LineBytes(StatusText(h)) + rest;
    ReadLineBytes(StatusText(h), rest);
    StatusParsed(h);
    FieldsTaken(h.fields, [], tail);
  }

  function InterimBytes(hs: seq<HeadText>): seq<byte> {
    if hs == [] then [] else HeadBytes(hs[0]) + InterimBytes(hs[1..])
  }

  predicate GoodInterims(hs: seq<HeadText>) {
    forall k :: 0 <= k < |hs| ==> GoodHead(hs[k]) && AnnouncingCode(hs[k].code)
  }

  lemma {:induction false} InterimsSkipped(hs: seq<HeadText>, tail: seq<byte>)
    requires GoodInterims(hs)
    ensures ReadHead(InterimBytes(hs) + tail) == ReadHead(tail)
    decreases |hs|
  {
    hide ReadHead, GoodHead, HeadBytes;
    if hs == [] {
      assert InterimBytes(hs) + tail == tail;
    } else {
      var rest := InterimBytes(hs[1..]) + tail;
      assert InterimBytes(hs) + tail == HeadBytes(hs[0]) + rest;
      InterimSkipped(hs[0], rest);
      InterimsSkipped(hs[1..], tail);
    }
  }

  // ----- Messages -----

  datatype Content = Nothing | Plain(data: seq<byte>) | InChunks(layout: Layout)

  datatype Message = Message(interims: seq<HeadText>, head: HeadText, content: Content)

  function ContentBytes(c: Content): seq<byte> {
    match c
    case Nothing => []
    case Plain(data) => data
    case InChunks(x) => Encoded(x, true)
  }

  function DataOf(c: Content): seq<byte> {
    match c
    case Nothing => []
    case Plain(data) => data
    case InChunks(x) => Joined(x.pieces)
  }

  function MessageBytes(m: Message): seq<byte> {
    InterimBytes(m.interims) + (HeadBytes(m.head) + ContentBytes(m.content))
  }

  /** The framing a content needs. */
  function FramingFor(c: Content): Framing {
    match c
    case Nothing => Empty
    case Plain(data) => HttpHead.Sized(|data|)
    case InChunks(_) => HttpHead.Chunked
  }

  /** The first header of that name. */
  predicate FirstField(fs: seq<Field>, k: nat, name: string) {
    && k < |fs| && SameName(fs[k].name, name)
    && forall j :: 0 <= j < k ==> !SameName(fs[j].name, name)
  }

  predicate Unnamed(fs: seq<Field>, from: nat, name: string) {
    forall j :: from <= j < |fs| ==> !SameName(fs[j].name, name)
  }

  /** What a server writes to announce the content: for data, one Content-Length and no
      Transfer-Encoding; for chunks, a Transfer-Encoding; a bodiless response has none. */
  ghost predicate Announces(h: HeadText, c: Content, method_: string) {
    match c
    case Nothing => NoBody(h.code, method_)
    case Plain(data) =>
      && !NoBody(h.code, method_) && |data| < TWO_TO_THE_64 && Unnamed(h.fields, 0, "transfer-encoding")
      && exists k: nat :: FirstField(h.fields, k, "content-length") && Spells(HeaderOf(h.fields[k]).value, |data|)
                          && Unnamed(h.fields, k + 1, "content-length")
    case InChunks(x) =>
      && !NoBody(h.code, method_) && GoodLayout(x)
      && exists k: nat :: FirstField(h.fields, k, "transfer-encoding") && EndsInChunked(HeaderOf(h.fields[k]).value)
  }

  ghost predicate GoodMessage(m: Message, method_: string) {
    && GoodInterims(m.interims) && GoodHead(m.head) && FinalCode(m.head.code)
    && Announces(m.head, m.content, method_)
  }

  lemma {:induction false} HeaderAt(fs: seq<Field>, k: nat)
    requires k < |fs|
    ensures HeadersOf(fs)[k] == HeaderOf(fs[k])
    decreases |fs|
  {
    if k > 0 {
      HeaderAt(fs[1..], k - 1);
    }
  }

  /** The headers around one of them. */
  lemma Around(fs: seq<Field>, k: nat, name: string)
    requires k < |fs| && forall j :: 0 <= j < k ==> !SameName(fs[j].name, name)
    ensures var hs := HeadersOf(fs);
            && hs == hs[..k] + [HeaderOf(fs[k])] + hs[k + 1..]
            && !Named(hs[..k], name)
            && (Unnamed(fs, k + 1, name) ==> !Named(hs[k + 1..], name))
  {
    var hs := HeadersOf(fs);
    forall j | 0 <= j < |fs| ensures hs[j] == HeaderOf(fs[j]) {
      HeaderAt(fs, j);
    }
    assert hs == hs[..k] + [hs[k]] + hs[k + 1..];
  }

  lemma NotNamed(fs: seq<Field>, name: string)
    requires Unnamed(fs, 0, name)
    ensures !Named(HeadersOf(fs), name)
  {
    forall j | 0 <= j < |fs| ensures HeadersOf(fs)[j].name == fs[j].name {
      HeaderAt(fs, j);
    }
  }

  /** The announced framing is the one that gets chosen. */
  lemma FramingAnnounced(h: HeadText, c: Content, method_: string)
    requires Announces(h, c, method_)
    ensures FramingOf(HeadOf(h), method_) == Ok(FramingFor(c))
  {
    hide Bodiless, NoBody, Spells, EndsInChunked, SameName, HeadersOf, Unfolded;
    BodilessExact(h.code, method_);
    var head := HeadOf(h);
    var hs := head.headers;
    match c {
      case Nothing =>
      case Plain(data) =>
        var k: nat :| FirstField(h.fields, k, "content-length") && Spells(HeaderOf(h.fields[k]).value, |data|)
                      && Unnamed(h.fields, k + 1, "content-length");
        Around(h.fields, k, "content-length");
        NotNamed(h.fields, "transfer-encoding");
        OneLength(head, method_, hs[..k], HeaderOf(h.fields[k]), hs[k + 1..], |data|);
      case InChunks(x) =>
        var k: nat :| FirstField(h.fields, k, "transfer-encoding") && EndsInChunked(HeaderOf(h.fields[k]).value);
        Around(h.fields, k, "transfer-encoding");
        FirstEncoding(head, method_, hs[..k], HeaderOf(h.fields[k]), hs[k + 1..]);
    }
  }

  lemma ContentRead(c: Content, tail: seq<byte>)
    requires c.InChunks? ==> GoodLayout(c.layout)
    ensures Decode(Start(FramingFor(c)), ContentBytes(c) + tail) == Complete(DataOf(c), tail)
  {
    hide GoodLayout, Encoded;
    match c {
      case Nothing => assert [] + tail == tail;
      case Plain(data) =>
        LengthRoundTrip(data, tail);
        assert [] + tail == tail;
      case InChunks(x) => ChunkedRoundTrip(x, true, tail);
    }
  }

  /** One exchange: the head, the framing it calls for, and the body as it is on the stream. */
  function Receive(s: seq<byte>, method_: string): Result<(Head, Outcome), IoError> {
    var head := ReadHead(s);
    match head.result
    case Err(e) => Err(e)
    case Ok(h) =>
      match FramingOf(h, method_)
      case Err(e) => Err(e)
      case Ok(f) => Ok((h, Decode(Start(f), head.rest)))
  }

  /** A response is received exactly, and up to its last byte. */
  lemma MessageRoundTrip(m: Message, method_: string, tail: seq<byte>)
    requires GoodMessage(m, method_)
    ensures Receive(MessageBytes(m) + tail, method_) == Ok((HeadOf(m.head), Complete(DataOf(m.content), tail)))
  {
    hide ReadHead, FramingOf, Decode, HeadOf, HeadBytes, GoodHead, GoodLayout;
    var rest := ContentBytes(m.content) + tail;
    assert MessageBytes(m) + tail == InterimBytes(m.interims) + (HeadBytes(m.head) + rest);
    InterimsSkipped(m.interims, HeadBytes(m.head) + rest);
    HeadRoundTrip(m.head, rest);
    FramingAnnounced(m.head, m.content, method_);
    ContentRead(m.content, tail);
  }

  // ----- A reused connection -----

  /** The responses to a list of requests on one connection, each read to its end. */
  function ReceiveAll(s: seq<byte>, methods: seq<string>): Option<(seq<(Head, seq<byte>)>, seq<byte>)>
    decreases |methods|
  {
    if methods == [] then Some(([], s))
    else
      match Receive(s, methods[0])
      case Ok((head, Complete(body, rest))) =>
        (match ReceiveAll(rest, methods[1..])
         case Some((more, end)) => Some(([(head, body)] + more, end))
         case None => None)
      case _ => None
  }

  function AllBytes(ms: seq<Message>): seq<byte> {
    if ms == [] then [] else MessageBytes(ms[0]) + AllBytes(ms[1..])
  }

  function Expected(ms: seq<Message>): seq<(Head, seq<byte>)> {
    if ms == [] then [] else [(HeadOf(ms[0].head), DataOf(ms[0].content))] + Expected(ms[1..])
  }

  /** Any list of responses written back to back comes out head by head and body by body, and
      the bytes behind the last one are left alone. */
  lemma {:induction false} PipelineRoundTrip(ms: seq<Message>, methods: seq<string>, tail: seq<byte>)
    requires |methods| == |ms| && forall k :: 0 <= k < |ms| ==> GoodMessage(ms[k], methods[k])
    ensures ReceiveAll(AllBytes(ms) + tail, methods) == Some((Expected(ms), tail))
    decreases |ms|
  {
    hide Receive, GoodMessage, MessageBytes, HeadOf, DataOf;
    if ms == [] {
      assert [] + tail == tail;
    } else {
      var rest := AllBytes(ms[1..]) + tail;
      assert AllBytes(ms) + tail == MessageBytes(ms[0]) + rest;
      MessageRoundTrip(ms[0], methods[0], rest);
      PipelineRoundTrip(ms[1..], methods[1..], tail);
    }
  }

  // ----- A reused connection, read call by call -----

  /** The head, and the state and stream from which its body is read. */
  function Begin(s: seq<byte>, method_: string): Option<(Head, State, seq<byte>)> {
    var head := ReadHead(s);
    match head.result
    case Err(_) => None
    case Ok(h) =>
      match FramingOf(h, method_)
      case Err(_) => None
      case Ok(f) => Some((h, Start(f), head.rest))
  }

  /** Calls with non-empty buffers, of which the last reports the end of the body. */
  predicate RunsToEnd(a: State, s: seq<byte>, calls: seq<Call>) {
    Runs(a, s, calls) && calls != [] && calls[|calls| - 1].event == End
  }

  /** One list of calls for each response, each list where the one before left the stream. */
  predicate EachToEnd(s: seq<byte>, methods: seq<string>, runs: seq<seq<Call>>)
    decreases |methods|
  {
    && |runs| == |methods|
    && (methods == [] ||
        match Begin(s, methods[0])
        case None => true
        case Some((_, a, t)) => RunsToEnd(a, t, runs[0]) && EachToEnd(FinalStream(t, runs[0]), methods[1..], runs[1..]))
  }

  /** What those calls gave: every head with the data behind it, and the stream that is left. */
  function ReadEach(s: seq<byte>, methods: seq<string>, runs: seq<seq<Call>>)
    : Option<(seq<(Head, seq<byte>)>, seq<byte>)>
    requires |runs| == |methods|
    decreases |methods|
  {
    if methods == [] then Some(([], s))
    else
      match Begin(s, methods[0])
      case None => None
      case Some((head, _, t)) =>
        match ReadEach(FinalStream(t, runs[0]), methods[1..], runs[1..])
        case None => None
        case Some((more, end)) => Some(([(head, Delivered(runs[0]))] + more, end))
  }

  lemma ReceiveBegins(s: seq<byte>, method_: string)
    ensures Receive(s, method_).Ok? <==> Begin(s, method_).Some?
    ensures Begin(s, method_).Some? ==>
              var (h, a, t) := Begin(s, method_).value;
              HttpBody.Valid(a) && Receive(s, method_) == Ok((h, Decode(a, t)))
  {
    hide ReadHead, FramingOf, Decode;
  }

  lemma {:induction false} EachIsReceived(s: seq<byte>, methods: seq<string>, runs: seq<seq<Call>>)
    requires ReceiveAll(s, methods).Some? && EachToEnd(s, methods, runs)
    ensures ReadEach(s, methods, runs) == ReceiveAll(s, methods)
    decreases |methods|
  {
    hide Receive, Begin, Decode, Runs;
    if methods == [] {
      assert ReadEach(s, methods, runs) == Some(([], s));
    } else {
      ReceiveBegins(s, methods[0]);
      var (_, a, t) := Begin(s, methods[0]).value;
      CleanEnd(a, t, runs[0]);
      EachIsReceived(FinalStream(t, runs[0]), methods[1..], runs[1..]);
    }
  }

  /** Responses written back to back and read with any buffer sizes and any short reads, each
      until its end is reported: every head and every body comes out, and what follows the last
      one is left on the stream. */
  lemma PipelineRuns(ms: seq<Message>, methods: seq<string>, runs: seq<seq<Call>>, tail: seq<byte>)
    requires |methods| == |ms| && forall k :: 0 <= k < |ms| ==> GoodMessage(ms[k], methods[k])
    requires EachToEnd(AllBytes(ms) + tail, methods, runs)
    ensures ReadEach(AllBytes(ms) + tail, methods, runs) == Some((Expected(ms), tail))
  {
    hide GoodMessage, AllBytes, Expected, ReceiveAll, ReadEach, EachToEnd;
    PipelineRoundTrip(ms, methods, tail);
    EachIsReceived(AllBytes(ms) + tail, methods, runs);
  }

  // ----- Heads cut short -----

  lemma {:induction false} FoldsCut(folds: seq<string>, headers: seq<Header>, h: Header, p: seq<byte>)
    requires GoodFolds(folds) && p < FoldBytes(folds)
    ensures ReadHeaders(p, headers + [h]) == Scan(Err(UnexpectedEof), [])
    decreases |folds|
  {
    hide ReadLine, LineBytes, GoodLine, TakeLine, Folded, Trim;
    var line := LineBytes(folds[0]);
    PrefixSplit(p, line, FoldBytes(folds[1..]));
    if p < line {
      ReadLineCut(folds[0], p);
    } else {
      var more := h.(value := h.value + " " + Trim(folds[0]));
      FoldStep(folds[0], headers, h, p[|line|..]);
      FoldsCut(folds[1..], headers, more, p[|line|..]);
    }
  }

  lemma FieldCut(f: Field, headers: seq<Header>, p: seq<byte>)
    requires GoodField(f) && |headers| < MAX_HEADERS && p < FieldBytes(f)
    ensures ReadHeaders(p, headers) == Scan(Err(UnexpectedEof), [])
  {
    hide ReadLine, LineBytes, GoodLine, TakeLine, FieldLine, GoodField, FoldBytes;
    GoodFieldLine(f);
    var line := LineBytes(FieldLine(f));
    PrefixSplit(p, line, FoldBytes(f.folds));
    if p < line {
      ReadLineCut(FieldLine(f), p);
    } else {
      LineStep(f, headers, p[|line|..]);
      FoldsCut(f.folds, headers, Header(f.name, f.value), p[|line|..]);
    }
  }

  lemma {:induction false} FieldsCut(fs: seq<Field>, headers: seq<Header>, p: seq<byte>)
    requires GoodFields(fs) && |headers| + |fs| <= MAX_HEADERS && p < FieldsBytes(fs)
    ensures ReadHeaders(p, headers) == Scan(Err(UnexpectedEof), [])
    decreases |fs|
  {
    hide ReadLine, LineBytes, GoodLine, TakeLine, FieldBytes, GoodField, HeaderOf;
    if fs == [] {
      EmptyIsGood();
      ReadLineCut("", p);
    } else {
      hide ReadHeaders;
      var field := FieldBytes(fs[0]);
      PrefixSplit(p, field, FieldsBytes(fs[1..]));
      if p < field {
        FieldCut(fs[0], headers, p);
      } else {
        FieldStep(fs[0], headers, p[|field|..]);
        FieldsCut(fs[1..], headers + [HeaderOf(fs[0])], p[|field|..]);
      }
    }
  }

  /** A head cut short, interim or not, is the early end of the stream, never a shorter head. */
  lemma HeadTruncated(h: HeadText, p: seq<byte>)
    requires GoodHead(h) && p < HeadBytes(h)
    ensures ReadHead(p) == Scan(Err(UnexpectedEof), [])
  {
    hide ReadLine, LineBytes, GoodLine, ParseStatus, StatusText, ReadHeaders, FieldsBytes;
    var line := LineBytes(StatusText(h));
    PrefixSplit(p, line, FieldsBytes(h.fields));
    if p < line {
      ReadLineCut(StatusText(h), p);
    } else {
      ReadLineBytes(StatusText(h), p[|line|..]);
      StatusParsed(h);
      FieldsCut(h.fields, [], p[|line|..]);
    }
  }
}
