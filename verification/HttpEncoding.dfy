/**
 The other end of a response body: how a server lays out chunks, extensions and trailers
 (section 7.1 of RFC 9112), and what the reader makes of such a layout and of its beginnings.
 */
module HttpEncoding {
  import opened Bytes
  import opened Text
  import Utf8
  import opened HttpBody

  // ----- Lines -----

  function LineBytes(text: string): seq<byte> {
    Utf8.Encode(text) + [13, 10]
  }

  /** A line the reader takes whole and gives back unchanged. */
  predicate GoodLine(text: string) {
    && '\n' !in text && (text != "" ==> text[|text| - 1] != '\r')
    && |LineBytes(text)| <= MAX_LINE
  }

  /** The only line feed of a line is its last byte. */
  lemma LineShape(text: string)
    requires GoodLine(text)
    ensures var line := LineBytes(text);
            line[|line| - 1] == 10 && forall j :: 0 <= j < |line| - 1 ==> line[j] != 10
  {
    Utf8.AsciiBytes(text, 10);
    var e := Utf8.Encode(text);
    assert forall j :: 0 <= j < |e| ==> e[j] in e;
  }

  lemma ChompLine(text: string)
    requires GoodLine(text)
    ensures Chomp(LineBytes(text)) == Utf8.Encode(text)
  {
    var e := Utf8.Encode(text);
    var line := LineBytes(text);
    assert line[..|line| - 1] == e + [13];
    assert (e + [13])[..|e|] == e;
    if text != "" {
      Utf8.LastByte(text, 10);
      Utf8.LastByte(text, 13);
    }
    assert Chomp(e + [13]) == Chomp(e) == e;
  }

  /** Reading a line gives its text and stops behind it. */
  lemma ReadLineBytes(text: string, tail: seq<byte>)
    requires GoodLine(text)
    ensures ReadLine(LineBytes(text) + tail) == Scan(Ok(text), tail)
  {
    hide Utf8.Encode, Utf8.Decode;
    var line := LineBytes(text);
    var s := line + tail;
    LineShape(text);
    NewlineUnique(s, |line| - 1);
    assert s[..|line|] == line && s[|line|..] == tail;
    ChompLine(text);
    Utf8.DecodeEncode(text);
  }

  /** A line cut short is the early end of the stream, not a line and not malformed. */
  lemma ReadLineCut(text: string, p: seq<byte>)
    requires GoodLine(text) && p < LineBytes(text)
    ensures ReadLine(p) == Scan(Err(UnexpectedEof), [])
  {
    hide Utf8.Encode, Utf8.Decode;
    LineShape(text);
    NewlineUnique(p, |p|);
    assert p[..|p|] == p && p[|p|..] == [];
  }

  // ----- Chunk size lines -----

  /** A chunk size as it is written: digits in either case, leading zeros included, and an
      extension, which may begin with white space. */
  datatype Size = Size(digits: string, ext: string)

  function SizeText(x: Size): string {
    x.digits + x.ext
  }

  predicate GoodSize(n: nat, x: Size) {
    && x.digits != "" && Digits(x.digits, 16) == Some(n) && n < TWO_TO_THE_64
    && AllWhite(Before(x.ext, ';')) && GoodLine(SizeText(x))
  }

  lemma SizeOfText(n: nat, x: Size)
    requires GoodSize(n, x)
    ensures SizeOf(SizeText(x)) == Some(n)
  {
    var text := SizeText(x);
    DigitsOnly(x.digits, 16);
    forall k | 0 <= k < |x.digits| ensures x.digits[k] != ';' && !White(x.digits[k]) {
      assert Digit(x.digits[k], 16).Some?;
    }
    IndexUnique(text, ';', |x.digits| + IndexOf(x.ext, ';'));
    assert Before(text, ';') == x.digits + Before(x.ext, ';') == "" + x.digits + Before(x.ext, ';');
    TrimPadded("", x.digits, Before(x.ext, ';'));
    assert Digit(x.digits[0], 16).Some?;
  }

  /** The line break that ends the chunk before. */
  function Lead(first: bool): seq<byte> {
    if first then [] else LineBytes("")
  }

  lemma EmptyIsGood()
    ensures GoodLine("") && |LineBytes("")| == 2
  {
  }

  lemma NextSizeBytes(first: bool, n: nat, x: Size, tail: seq<byte>)
    requires GoodSize(n, x)
    ensures NextSize(first, Lead(first) + (LineBytes(SizeText(x)) + tail)) == Scan(Ok(n), tail)
  {
    hide ReadLine, SizeOf, LineBytes, GoodLine, SizeText;
    var rest := LineBytes(SizeText(x)) + tail;
    ReadLineBytes(SizeText(x), tail);
    SizeOfText(n, x);
    if first {
      assert [] + rest == rest;
    } else {
      EmptyIsGood();
      ReadLineBytes("", rest);
    }
  }

  /** A beginning of two pieces is a beginning of the first, or the first and one of the second. */
  lemma PrefixSplit(p: seq<byte>, a: seq<byte>, b: seq<byte>)
    requires p < a + b
    ensures p < a || (a <= p && p == a + p[|a|..] && p[|a|..] < b)
  {
    if |p| < |a| {
      assert p == a[..|p|];
    } else {
      assert p[|a|..] == b[..|p| - |a|];
    }
  }

  lemma NextSizeCut(first: bool, n: nat, x: Size, p: seq<byte>)
    requires GoodSize(n, x) && p < Lead(first) + LineBytes(SizeText(x))
    ensures NextSize(first, p) == Scan(Err(UnexpectedEof), [])
  {
    hide ReadLine, SizeOf, LineBytes, GoodLine, SizeText;
    EmptyIsGood();
    PrefixSplit(p, Lead(first), LineBytes(SizeText(x)));
    if p < Lead(first) {
      ReadLineCut("", p);
    } else {
      var rest := p[|Lead(first)|..];
      ReadLineCut(SizeText(x), rest);
      if first {
        assert rest == p;
      } else {
        ReadLineBytes("", rest);
      }
    }
  }

  // ----- Trailers -----

  predicate GoodTrailers(lines: seq<string>) {
    forall k :: 0 <= k < |lines| ==> lines[k] != "" && GoodLine(lines[k])
  }

  /** Lines, and the empty line that ends them. */
  function Block(lines: seq<string>): seq<byte> {
    if lines == [] then LineBytes("") else LineBytes(lines[0]) + Block(lines[1..])
  }

  lemma {:induction false} TrailersBytes(lines: seq<string>, tail: seq<byte>)
    requires GoodTrailers(lines)
    ensures Trailers(Block(lines) + tail) == Scan(Ok(()), tail)
    decreases |lines|
  {
    hide ReadLine, LineBytes, GoodLine;
    if lines == [] {
      EmptyIsGood();
      ReadLineBytes("", tail);
    } else {
      var rest := Block(lines[1..]) + tail;
      assert Block(lines) + tail == LineBytes(lines[0]) + rest;
      ReadLineBytes(lines[0], rest);
      TrailersBytes(lines[1..], tail);
    }
  }

  lemma {:induction false} TrailersCut(lines: seq<string>, p: seq<byte>)
    requires GoodTrailers(lines) && p < Block(lines)
    ensures Trailers(p) == Scan(Err(UnexpectedEof), [])
    decreases |lines|
  {
    hide ReadLine, LineBytes, GoodLine;
    if lines == [] {
      EmptyIsGood();
      ReadLineCut("", p);
    } else {
      var line := LineBytes(lines[0]);
      PrefixSplit(p, line, Block(lines[1..]));
      if p < line {
        ReadLineCut(lines[0], p);
      } else {
        ReadLineBytes(lines[0], p[|line|..]);
        TrailersCut(lines[1..], p[|line|..]);
      }
    }
  }

  // ----- Chunked bodies -----

  datatype Piece = Piece(data: seq<byte>, size: Size)

  datatype Layout = Layout(pieces: seq<Piece>, last: Size, trailers: seq<string>)

  predicate GoodPieces(pieces: seq<Piece>) {
    forall k :: 0 <= k < |pieces| ==> pieces[k].data != [] && GoodSize(|pieces[k].data|, pieces[k].size)
  }

  predicate GoodLayout(x: Layout) {
    GoodPieces(x.pieces) && GoodSize(0, x.last) && GoodTrailers(x.trailers)
  }

  function Joined(pieces: seq<Piece>): seq<byte> {
    if pieces == [] then [] else pieces[0].data + Joined(pieces[1..])
  }

  function Behind(x: Layout): Layout
    requires x.pieces != []
  {
    x.(pieces := x.pieces[1..])
  }

  /** The bytes of a chunked body; each size line but the first stands behind the line break
      that ends the data before it. */
  function Encoded(x: Layout, first: bool): seq<byte>
    decreases |x.pieces|
  {
    if x.pieces == [] then Lead(first) + (LineBytes(SizeText(x.last)) + Block(x.trailers))
    else
      var piece := x.pieces[0];
      Lead(first) + (LineBytes(SizeText(piece.size)) + (piece.data + Encoded(Behind(x), false)))
  }

  /** One chunk off the front. */
  lemma DecodePiece(first: bool, piece: Piece, rest: seq<byte>)
    requires piece.data != [] && GoodSize(|piece.data|, piece.size)
    ensures Decode(Chunk(0, first), Lead(first) + (LineBytes(SizeText(piece.size)) + (piece.data + rest)))
            == After(piece.data, Decode(Chunk(0, false), rest))
  {
    hide NextSize, Trailers, LineBytes, SizeText, GoodSize, Lead;
    var d := piece.data;
    NextSizeBytes(first, |d|, piece.size, d + rest);
    assert (d + rest)[..|d|] == d && (d + rest)[|d|..] == rest;
  }

  /** Whatever follows it, a chunked body is read back exactly, up to its last byte. */
  lemma {:induction false} ChunkedRoundTrip(x: Layout, first: bool, tail: seq<byte>)
    requires GoodLayout(x)
    ensures Decode(Chunk(0, first), Encoded(x, first) + tail) == Complete(Joined(x.pieces), tail)
    decreases |x.pieces|
  {
    hide NextSize, Trailers, LineBytes, SizeText, GoodSize, Lead, GoodTrailers, Block, Decode;
    if x.pieces == [] {
      var block := Block(x.trailers) + tail;
      assert Encoded(x, first) + tail == Lead(first) + (LineBytes(SizeText(x.last)) + block);
      LastChunk(x, first, tail);
    } else {
      var piece, rest := x.pieces[0], Encoded(Behind(x), false) + tail;
      assert Encoded(x, first) + tail
          == Lead(first) + (LineBytes(SizeText(piece.size)) + (piece.data + rest));
      DecodePiece(first, piece, rest);
      ChunkedRoundTrip(Behind(x), false, tail);
    }
  }

  lemma LastChunk(x: Layout, first: bool, tail: seq<byte>)
    requires GoodSize(0, x.last) && GoodTrailers(x.trailers)
    ensures Decode(Chunk(0, first), Lead(first) + (LineBytes(SizeText(x.last)) + (Block(x.trailers) + tail)))
            == Complete([], tail)
  {
    hide NextSize, Trailers, LineBytes, SizeText, GoodSize, Lead, GoodTrailers, Block;
    NextSizeBytes(first, 0, x.last, Block(x.trailers) + tail);
    TrailersBytes(x.trailers, tail);
  }

  // ----- Truncation -----

  lemma CutSize(first: bool, n: nat, x: Size, p: seq<byte>)
    requires GoodSize(n, x) && p < Lead(first) + LineBytes(SizeText(x))
    ensures Decode(Chunk(0, first), p) == Cut([])
  {
    hide NextSize, Trailers, LineBytes, SizeText, GoodSize, Lead;
    NextSizeCut(first, n, x, p);
  }

  lemma CutTrailers(x: Layout, first: bool, p: seq<byte>)
    requires GoodSize(0, x.last) && GoodTrailers(x.trailers) && p < Block(x.trailers)
    ensures Decode(Chunk(0, first), Lead(first) + (LineBytes(SizeText(x.last)) + p)) == Cut([])
  {
    hide NextSize, Trailers, LineBytes, SizeText, GoodSize, Lead, GoodTrailers, Block;
    NextSizeBytes(first, 0, x.last, p);
    TrailersCut(x.trailers, p);
  }

  lemma CutData(first: bool, piece: Piece, p: seq<byte>)
    requires GoodSize(|piece.data|, piece.size) && p < piece.data
    ensures Decode(Chunk(0, first), Lead(first) + (LineBytes(SizeText(piece.size)) + p)) == Cut(p)
  {
    hide NextSize, Trailers, LineBytes, SizeText, GoodSize, Lead;
    NextSizeBytes(first, |piece.data|, piece.size, p);
  }

  /** What is behind the size line of the first piece, or of the last chunk. */
  lemma CutPiece(x: Layout, first: bool, p: seq<byte>)
    requires GoodLayout(x) && x.pieces != [] && p < x.pieces[0].data + Encoded(Behind(x), false)
    ensures var piece := x.pieces[0];
            var o := Decode(Chunk(0, first), Lead(first) + (LineBytes(SizeText(piece.size)) + p));
            o.Cut? && o.body <= Joined(x.pieces)
    decreases |x.pieces|, 0
  {
    hide NextSize, Trailers, LineBytes, SizeText, GoodSize, Lead, GoodTrailers, Block, Decode, Encoded;
    var piece := x.pieces[0];
    PrefixSplit(p, piece.data, Encoded(Behind(x), false));
    if p < piece.data {
      CutData(first, piece, p);
    } else {
      var rest := p[|piece.data|..];
      DecodePiece(first, piece, rest);
      ChunkedTruncated(Behind(x), false, rest);
    }
  }

  /** Every proper beginning of a chunked body, trailers and final empty line included, is a
      body cut short, of which the data so far is a beginning of the real one. */
  lemma {:induction false} ChunkedTruncated(x: Layout, first: bool, p: seq<byte>)
    requires GoodLayout(x) && p < Encoded(x, first)
    ensures Decode(Chunk(0, first), p).Cut? && Decode(Chunk(0, first), p).body <= Joined(x.pieces)
    decreases |x.pieces|, 1
  {
    hide NextSize, Trailers, LineBytes, SizeText, GoodSize, Lead, GoodTrailers, Block, Decode;
    var n := if x.pieces == [] then 0 else |x.pieces[0].data|;
    var size := if x.pieces == [] then x.last else x.pieces[0].size;
    var line := LineBytes(SizeText(size));
    var behind := if x.pieces == [] then Block(x.trailers) else x.pieces[0].data + Encoded(Behind(x), false);
    assert Encoded(x, first) == (Lead(first) + line) + behind;
    PrefixSplit(p, Lead(first) + line, behind);
    if p < Lead(first) + line {
      CutSize(first, n, size, p);
    } else {
      var rest := p[|Lead(first) + line|..];
      assert p == Lead(first) + (line + rest);
      if x.pieces == [] {
        CutTrailers(x, first, rest);
      } else {
        CutPiece(x, first, rest);
      }
    }
  }

  // ----- Bodies with a length -----

  lemma LengthRoundTrip(body: seq<byte>, tail: seq<byte>)
    ensures Decode(Length(|body|), body + tail) == Complete(body, tail)
  {
    assert (body + tail)[..|body|] == body && (body + tail)[|body|..] == tail;
  }

  /** No run of reads over a truncated chunked body, whatever the buffers and however short
      the reads, ever reports its end; one that gives no data reports the early end. */
  lemma TruncatedRun(x: Layout, p: seq<byte>, calls: seq<Call>)
    requires GoodLayout(x) && p < Encoded(x, true) && Runs(Chunk(0, true), p, calls)
    ensures forall k :: 0 <= k < |calls| ==> calls[k].event.Data? || calls[k].event == Fault(UnexpectedEof)
    ensures Delivered(calls) <= Joined(x.pieces)
    ensures |p| < |calls| ==> exists k :: 0 <= k < |calls| && calls[k].event == Fault(UnexpectedEof)
  {
    hide Runs, Decode, Encoded, GoodLayout;
    ChunkedTruncated(x, true, p);
    CutNeverEnds(Chunk(0, true), p, calls);
    if |p| < |calls| {
      RunsOut(Chunk(0, true), p, calls);
    }
  }

  lemma TruncatedLengthRun(body: seq<byte>, p: seq<byte>, calls: seq<Call>)
    requires p < body && Runs(Length(|body|), p, calls)
    ensures forall k :: 0 <= k < |calls| ==> calls[k].event.Data? || calls[k].event == Fault(UnexpectedEof)
    ensures Delivered(calls) <= p
    ensures |p| < |calls| ==> exists k :: 0 <= k < |calls| && calls[k].event == Fault(UnexpectedEof)
  {
    hide Runs;
    CutNeverEnds(Length(|body|), p, calls);
    if |p| < |calls| {
      RunsOut(Length(|body|), p, calls);
    }
  }

  /** Without a length, the body is all that comes until the connection ends: no read fails, the end
      is reported after enough calls, and by then everything was given. */
  lemma ToEndRun(data: seq<byte>, calls: seq<Call>)
    requires Runs(Eof, data, calls)
    ensures forall k :: 0 <= k < |calls| ==> calls[k].event.Data? || calls[k].event == End
    ensures |data| < |calls| ==> exists k :: 0 <= k < |calls| && calls[k].event == End
    ensures calls != [] && calls[|calls| - 1].event == End ==> Delivered(calls) == data && FinalStream(data, calls) == []
  {
    hide Runs;
    assert Decode(Eof, data) == Complete(data, []);
    WholeNeverFails(Eof, data, calls);
    if |data| < |calls| {
      RunsOut(Eof, data, calls);
    }
    if calls != [] && calls[|calls| - 1].event == End {
      CleanEnd(Eof, data, calls);
    }
  }

  /** No run of reads over a chunked body fails; one that goes on long enough reports its end,
      and by then it gave exactly the data and left exactly what follows the body. */
  lemma ChunkedRun(x: Layout, tail: seq<byte>, calls: seq<Call>)
    requires GoodLayout(x) && Runs(Chunk(0, true), Encoded(x, true) + tail, calls)
    ensures forall k :: 0 <= k < |calls| ==> calls[k].event.Data? || calls[k].event == End
    ensures |Encoded(x, true) + tail| < |calls| ==> exists k :: 0 <= k < |calls| && calls[k].event == End
    ensures calls != [] && calls[|calls| - 1].event == End ==>
              Delivered(calls) == Joined(x.pieces) && FinalStream(Encoded(x, true) + tail, calls) == tail
  {
    hide Runs, Decode, Encoded, GoodLayout;
    var s := Encoded(x, true) + tail;
    ChunkedRoundTrip(x, true, tail);
    WholeNeverFails(Chunk(0, true), s, calls);
    if |s| < |calls| {
      RunsOut(Chunk(0, true), s, calls);
    }
    if calls != [] && calls[|calls| - 1].event == End {
      CleanEnd(Chunk(0, true), s, calls);
    }
  }
}
