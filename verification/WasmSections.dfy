/**
 The sections of a WebAssembly module, as `sections` of packages/wasi-pnpm/names.py and of
 scripts/split-name-section.py walks them, and what leaving some of them out does.
 */
module WasmSections {
  import opened Bytes
  import Leb
  import Utf8

  const HEADER: seq<byte> := [0, 0x61, 0x73, 0x6D, 1, 0, 0, 0]

  /** Why a module is refused; the last three are for the scripts to raise. */
  datatype Failure = NotWasm | RanOff | NotText | TwoNames | NoNames | NotRoundTrip

  /** Python's `s[from:to]`. */
  function Slice(s: seq<byte>, from: nat, to: nat): (r: seq<byte>) {
    var e := if to < |s| then to else |s|;
    if from < e then s[from..e] else []
  }

  /** Where the parts of a section are, counted from its first byte: `sizeBytes` and
      `lengthBytes` are the widths of its two numbers, the second only in a custom section. */
  datatype Extent = Extent(id: byte, sizeBytes: nat, size: nat, lengthBytes: nat, length: nat, name: Option<string>) {
    function Body(): nat {
      1 + sizeBytes
    }

    function Payload(): nat {
      Body() + lengthBytes + length
    }

    function End(): nat {
      Body() + size
    }
  }

  function Tail(s: seq<byte>, n: nat): seq<byte> {
    if n <= |s| then s[n..] else []
  }

  /** The same places, counted from further on. */
  lemma Shifted(s: seq<byte>, at: nat, from: nat, to: nat)
    requires at <= |s| && at <= from <= to
    ensures Slice(s[at..], from - at, to - at) == Slice(s, from, to) && Tail(s[at..], to - at) == Tail(s, to)
    ensures from <= |s| ==> s[at..][from - at..] == s[from..]
  {
    var e := if to < |s| then to else |s|;
    if from < e {
      assert s[at..][from - at..e - at] == s[from..e];
    }
    if to <= |s| {
      assert s[at..][to - at..] == s[to..];
    }
  }

  /** One step of `sections`, at the front of the bytes. */
  function ReadExtent(s: seq<byte>): (r: Result<Extent, Failure>)
    requires s != []
    ensures r.Ok? ==> 1 < r.value.Body() <= r.value.End() && r.value.Body() <= |s| && r.value.Body() <= r.value.Payload()
    ensures r.Ok? ==> r.value.Body() + r.value.lengthBytes <= |s|
  {
    match Leb.Decode(s[1..])
    case None => Err(RanOff)
    case Some((size, n)) =>
      if s[0] != 0 then Ok(Extent(s[0], n, size, 0, 0, None))
      else
        match Leb.Decode(s[1 + n..])
        case None => Err(RanOff)
        case Some((length, m)) =>
          match Utf8.Decode(Slice(s, 1 + n + m, 1 + n + m + length))
          case None => Err(NotText)
          case Some(name) => Ok(Extent(0, n, size, m, length, Some(name)))
  }

  /** A section with its bytes. It is whole if it and its name end where they say, and minimal
      if its numbers are in their shortest form. */
  datatype Section = Section(id: byte, name: Option<string>, bytes: seq<byte>, payload: seq<byte>,
                             whole: bool, minimal: bool)

  predicate Whole(s: seq<byte>, e: Extent) {
    e.Payload() <= e.End() <= |s|
  }

  predicate Shortest(s: seq<byte>, e: Extent)
    requires e.Body() + e.lengthBytes <= |s|
  {
    && s[1..e.Body()] == Leb.Encode(e.size)
    && (e.id == 0 ==> s[e.Body()..e.Body() + e.lengthBytes] == Leb.Encode(e.length))
  }

  function SectionOf(s: seq<byte>, e: Extent): Section
    requires e.Body() + e.lengthBytes <= |s|
  {
    Section(e.id, e.name, Slice(s, 0, e.End()), Slice(s, e.Payload(), e.End()), Whole(s, e), Shortest(s, e))
  }

  function Parse(s: seq<byte>): Result<seq<Section>, Failure>
    decreases |s|
  {
    if s == [] then Ok([])
    else
      match ReadExtent(s)
      case Err(f) => Err(f)
      case Ok(e) =>
        match Parse(Tail(s, e.End()))
        case Err(f) => Err(f)
        case Ok(more) => Ok([SectionOf(s, e)] + more)
  }

  function BytesOf(xs: seq<Section>): seq<byte> {
    if xs == [] then [] else xs[0].bytes + BytesOf(xs[1..])
  }

  lemma {:induction false} BytesAppend(a: seq<Section>, b: seq<Section>)
    ensures BytesOf(a + b) == BytesOf(a) + BytesOf(b)
  {
    if a == [] {
      assert a + b == b;
    } else {
      assert (a + b)[1..] == a[1..] + b;
      BytesAppend(a[1..], b);
    }
  }

  /** The sections of a module are all of its bytes. */
  lemma {:induction false} BytesParsed(s: seq<byte>)
    requires Parse(s).Ok?
    ensures BytesOf(Parse(s).value) == s
    decreases |s|
  {
    hide ReadExtent, SectionOf, BytesOf;
    if s == [] {
      NoSections();
    } else {
      var e := ReadExtent(s).value;
      var more := Tail(s, e.End());
      BytesParsed(more);
      FirstBytes(s, e, Parse(more).value);
    }
  }

  lemma NoSections()
    ensures BytesOf([]) == []
  {
  }

  lemma FirstBytes(s: seq<byte>, e: Extent, xs: seq<Section>)
    requires e.Body() + e.lengthBytes <= |s| && BytesOf(xs) == Tail(s, e.End())
    ensures BytesOf([SectionOf(s, e)] + xs) == s
  {
    hide Whole, Shortest;
    assert ([SectionOf(s, e)] + xs)[1..] == xs;
    if e.End() <= |s| {
      assert s == s[..e.End()] + s[e.End()..];
    }
  }

  // ----- A section does not depend on what follows it -----

  lemma {:induction false} DecodeExtends(p: seq<byte>, t: seq<byte>)
    requires Leb.Decode(p).Some?
    ensures Leb.Decode(p + t) == Leb.Decode(p)
  {
    if p[0] >= 0x80 {
      assert (p + t)[1..] == p[1..] + t;
      DecodeExtends(p[1..], t);
    }
  }

  lemma {:induction false} DecodeLocal(s: seq<byte>, k: nat)
    requires Leb.Decode(s).Some? && Leb.Decode(s).value.1 <= k <= |s|
    ensures Leb.Decode(s[..k]) == Leb.Decode(s)
  {
    if s[0] >= 0x80 {
      assert s[..k][1..] == s[1..][..k - 1];
      DecodeLocal(s[1..], k - 1);
    }
  }

  lemma DecodeSame(s: seq<byte>, from: nat, k: nat, t: seq<byte>)
    requires from <= k <= |s| && Leb.Decode(s[from..]).Some? && from + Leb.Decode(s[from..]).value.1 <= k
    ensures Leb.Decode((s[..k] + t)[from..]) == Leb.Decode(s[from..])
  {
    DecodeLocal(s[from..], k - from);
    DecodeExtends(s[from..][..k - from], t);
    assert (s[..k] + t)[from..] == s[from..][..k - from] + t;
  }

  /** A whole section reads the same, whatever comes behind it. */
  lemma WholeStays(s: seq<byte>, t: seq<byte>)
    requires s != [] && ReadExtent(s).Ok? && Whole(s, ReadExtent(s).value)
    ensures var e := ReadExtent(s).value;
            var u := s[..e.End()] + t;
            ReadExtent(u) == Ok(e) && SectionOf(u, e) == SectionOf(s, e) && Tail(u, e.End()) == t
  {
    hide Leb.Decode, ReadExtent, SectionOf;
    var e := ReadExtent(s).value;
    ReadParts(s);
    DecodeSame(s, 1, e.End(), t);
    if s[0] == 0 {
      DecodeSame(s, e.Body(), e.End(), t);
      SameSlice(s, t, e);
    }
    SameExtent(s, s[..e.End()] + t);
    SameParts(s, t, e);
  }

  /** The numbers an extent was read from. */
  lemma ReadParts(s: seq<byte>)
    requires s != [] && ReadExtent(s).Ok?
    ensures var e := ReadExtent(s).value;
            && Leb.Decode(s[1..]) == Some((e.size, e.Body() - 1))
            && (s[0] == 0 ==> Leb.Decode(s[e.Body()..]) == Some((e.length, e.lengthBytes))
                              && e.Body() + e.lengthBytes <= e.Payload())
  {
    hide Leb.Decode, Utf8.Decode;
  }

  lemma SameSlice(s: seq<byte>, t: seq<byte>, e: Extent)
    requires Whole(s, e) && e.Body() + e.lengthBytes <= e.Payload()
    ensures Slice(s[..e.End()] + t, e.Body() + e.lengthBytes, e.Payload())
            == Slice(s, e.Body() + e.lengthBytes, e.Payload())
  {
  }

  lemma SameExtent(s: seq<byte>, u: seq<byte>)
    requires s != [] && u != [] && u[0] == s[0] && Leb.Decode(u[1..]) == Leb.Decode(s[1..]) && ReadExtent(s).Ok?
    requires var e := ReadExtent(s).value;
             s[0] == 0 ==>
               && e.Body() <= |u| && Leb.Decode(u[e.Body()..]) == Leb.Decode(s[e.Body()..])
               && Slice(u, e.Body() + e.lengthBytes, e.Payload()) == Slice(s, e.Body() + e.lengthBytes, e.Payload())
    ensures ReadExtent(u) == ReadExtent(s)
  {
    hide Leb.Decode, Utf8.Decode;
  }

  lemma SameParts(s: seq<byte>, t: seq<byte>, e: Extent)
    requires Whole(s, e)
    ensures SectionOf(s[..e.End()] + t, e) == SectionOf(s, e)
  {
    hide Leb.Encode;
    SameBeginning(s, t, e.End(), 0, e.End());
    SameBeginning(s, t, e.End(), e.Payload(), e.End());
    SameBeginning(s, t, e.End(), 1, e.Body());
    SameBeginning(s, t, e.End(), e.Body(), e.Body() + e.lengthBytes);
  }

  lemma SameBeginning(s: seq<byte>, t: seq<byte>, n: nat, a: nat, b: nat)
    requires a <= b <= n <= |s|
    ensures (s[..n] + t)[a..b] == s[a..b]
  {
  }

  /** A section that stands for itself: its bytes, in front of anything, read as it. */
  ghost predicate Free(x: Section) {
    && x.bytes != []
    && forall t :: Front(x.bytes + t, x, t)
  }

  ghost predicate Front(s: seq<byte>, x: Section, t: seq<byte>) {
    && s != [] && ReadExtent(s).Ok?
    && SectionOf(s, ReadExtent(s).value) == x && Tail(s, ReadExtent(s).value.End()) == t
  }

  ghost predicate AllFree(xs: seq<Section>) {
    forall k :: 0 <= k < |xs| ==> Free(xs[k])
  }

  predicate AllWhole(xs: seq<Section>) {
    forall k :: 0 <= k < |xs| ==> xs[k].whole
  }

  lemma {:induction false} WholeIsFree(s: seq<byte>)
    requires Parse(s).Ok? && AllWhole(Parse(s).value)
    ensures AllFree(Parse(s).value)
    decreases |s|
  {
    hide ReadExtent;
    if s != [] {
      var e := ReadExtent(s).value;
      var x, more := SectionOf(s, e), Parse(Tail(s, e.End())).value;
      var xs := Parse(s).value;
      assert xs[0] == x && xs[1..] == more;
      assert x.whole;
      FirstIsFree(s, e);
      assert AllWhole(more) by {
        forall k | 0 <= k < |more| ensures more[k].whole { assert more[k] == xs[k + 1]; }
      }
      WholeIsFree(Tail(s, e.End()));
      forall k | 0 <= k < |xs| ensures Free(xs[k]) {
        if k > 0 {
          assert xs[k] == more[k - 1];
        }
      }
    }
  }

  lemma FirstIsFree(s: seq<byte>, e: Extent)
    requires s != [] && ReadExtent(s) == Ok(e) && Whole(s, e)
    ensures Free(SectionOf(s, e))
  {
    hide ReadExtent;
    var x := SectionOf(s, e);
    assert x.bytes == s[..e.End()];
    forall t ensures Front(x.bytes + t, x, t) {
      WholeStays(s, t);
    }
  }

  /** Sections put one behind the other parse to just those sections. */
  lemma {:induction false} ParseFree(xs: seq<Section>)
    requires AllFree(xs)
    ensures Parse(BytesOf(xs)) == Ok(xs)
    decreases |xs|
  {
    hide ReadExtent, SectionOf;
    if xs != [] {
      var x, rest := xs[0], BytesOf(xs[1..]);
      assert Free(x);
      assert Front(x.bytes + rest, x, rest);
      forall k | 0 <= k < |xs[1..]| ensures Free(xs[1..][k]) {
        assert xs[1..][k] == xs[k + 1];
      }
      ParseFree(xs[1..]);
      assert [x] + xs[1..] == xs;
    }
  }

  // ----- Custom sections -----

  /** `custom_section`. */
  function Custom(name: string, payload: seq<byte>): seq<byte> {
    var raw := Utf8.Encode(name);
    var body := Leb.Encode(|raw|) + raw + payload;
    [0] + Leb.Encode(|body|) + body
  }

  lemma PrefixOf(p: seq<byte>, s: seq<byte>, from: nat)
    requires p <= s && from <= |p| && Leb.Decode(p[from..]).Some?
    ensures Leb.Decode(s[from..]) == Leb.Decode(p[from..])
  {
    assert s[from..] == p[from..] + s[|p|..];
    DecodeExtends(p[from..], s[|p|..]);
  }

  /** Building a custom section anew gives its bytes exactly if it is whole and both of its
      numbers are in their shortest form. */
  lemma RebuildsExactly(s: seq<byte>, e: Extent)
    requires s != [] && ReadExtent(s) == Ok(e) && e.id == 0
    ensures e.name.Some?
    ensures var x := SectionOf(s, e);
            x.bytes == Custom(e.name.value, x.payload) <==> x.whole && x.minimal
  {
    hide Leb.Decode, Leb.Encode, Utf8.Decode, Utf8.Encode;
    var x := SectionOf(s, e);
    NameRaw(s, e);
    if x.whole && x.minimal {
      TidyRebuilds(s, e);
    }
    if x.bytes == Custom(e.name.value, x.payload) {
      RebuiltIsTidy(s, e);
    }
  }

  /** The bytes of the name are those it encodes to. */
  lemma NameRaw(s: seq<byte>, e: Extent)
    requires s != [] && ReadExtent(s) == Ok(e) && e.id == 0
    ensures e.name.Some? && Utf8.Encode(e.name.value) == Slice(s, e.Body() + e.lengthBytes, e.Payload())
  {
    hide Leb.Decode, Utf8.Encode, Utf8.Decode, Slice;
    Utf8.EncodeDecode(Slice(s, e.Body() + e.lengthBytes, e.Payload()));
  }

  lemma TidyRebuilds(s: seq<byte>, e: Extent)
    requires e.id == 0 && 0 < e.Body() && Whole(s, e) && Shortest(s, e) && s[0] == 0 && e.name.Some?
    requires Utf8.Encode(e.name.value) == Slice(s, e.Body() + e.lengthBytes, e.Payload())
    ensures SectionOf(s, e).bytes == Custom(e.name.value, SectionOf(s, e).payload)
  {
    hide Leb.Encode, Utf8.Encode;
    var b, l, p, end := e.Body(), e.Body() + e.lengthBytes, e.Payload(), e.End();
    var raw, payload := s[l..p], s[p..end];
    assert Slice(s, l, p) == raw && Slice(s, p, end) == payload && Slice(s, 0, end) == s[..end];
    assert s[b..l] + raw + payload == s[b..end] && |s[b..end]| == e.size;
    assert s[..end] == [0] + s[1..b] + s[b..end];
  }

  /** An encoded number inside the bytes is the number read there. */
  lemma NumberAt(s: seq<byte>, from: nat, v: nat, rest: seq<byte>)
    requires from <= |s| && Leb.Encode(v) + rest <= s[from..]
    ensures Leb.Decode(s[from..]) == Some((v, |Leb.Encode(v)|))
    ensures from + |Leb.Encode(v)| <= |s| && s[from..from + |Leb.Encode(v)|] == Leb.Encode(v)
    ensures rest <= s[from + |Leb.Encode(v)|..]
  {
    hide Leb.Encode, Leb.Decode;
    var n, p := Leb.Encode(v), Leb.Encode(v) + rest;
    Leb.RoundTrip(v, rest);
    assert p[0..] == p && s[from..][0..] == s[from..];
    PrefixOf(p, s[from..], 0);
    assert s[from..from + |n|] == s[from..][..|n|] == p[..|n|];
    assert s[from + |n|..] == s[from..][|n|..];
  }

  lemma RebuiltIsTidy(s: seq<byte>, e: Extent)
    requires s != [] && ReadExtent(s) == Ok(e) && e.id == 0 && e.name.Some?
    requires SectionOf(s, e).bytes == Custom(e.name.value, SectionOf(s, e).payload)
    ensures Whole(s, e) && Shortest(s, e)
  {
    hide Leb.Encode, Leb.Decode, Utf8.Encode, Utf8.Decode, ReadExtent, Whole, Shortest;
    ReadParts(s);
    var raw, payload := Utf8.Encode(e.name.value), SectionOf(s, e).payload;
    var body := Leb.Encode(|raw|) + raw + payload;
    var bytes := [0] + Leb.Encode(|body|) + body;
    assert bytes == Slice(s, 0, e.End()) && bytes <= s;
    RebuiltFits(s, |body|, |raw|, raw, payload, bytes);
    assert s[0] == bytes[0] == 0;
    TidyParts(s, e, |body|, |raw|, |payload|);
  }

  lemma TidyParts(s: seq<byte>, e: Extent, size: nat, length: nat, rest: nat)
    requires e.id == 0 && e.size == size && e.length == length && size == |Leb.Encode(length)| + length + rest
    requires e.sizeBytes == |Leb.Encode(size)| && e.lengthBytes == |Leb.Encode(length)|
    requires e.End() <= |s| && e.Body() + e.lengthBytes <= |s|
    requires s[1..e.Body()] == Leb.Encode(size) && s[e.Body()..e.Body() + e.lengthBytes] == Leb.Encode(length)
    ensures Whole(s, e) && Shortest(s, e)
  {
    hide Leb.Encode;
  }

  /** The numbers a rebuilt section announces are the lengths it was rebuilt from. */
  lemma RebuiltFits(s: seq<byte>, size: nat, length: nat, raw: seq<byte>, payload: seq<byte>, bytes: seq<byte>)
    requires var body := Leb.Encode(length) + raw + payload;
             size == |body| && bytes == [0] + Leb.Encode(size) + body && bytes <= s
    ensures var n, m := |Leb.Encode(size)|, |Leb.Encode(length)|;
            && 1 + n + m <= |s| && Leb.Decode(s[1..]) == Some((size, n)) && s[1..1 + n] == Leb.Encode(size)
            && Leb.Decode(s[1 + n..]) == Some((length, m)) && s[1 + n..1 + n + m] == Leb.Encode(length)
  {
    hide Leb.Encode, Leb.Decode;
    var body := Leb.Encode(length) + raw + payload;
    assert bytes[1..] == Leb.Encode(size) + body;
    assert bytes[1..] <= s[1..];
    NumberAt(s, 1, size, body);
    assert body == Leb.Encode(length) + (raw + payload);
    NumberAt(s, 1 + |Leb.Encode(size)|, length, raw + payload);
  }
}
