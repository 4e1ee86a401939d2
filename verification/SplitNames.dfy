/**
 scripts/split-name-section.py: moves the `name` section of a module into a file of its own,
 after checking that putting it back gives the module again.
 */
module SplitNames {
  import opened Bytes
  import opened WasmSections
  import Leb
  import Utf8

  // ----- The script -----

  predicate IsName(x: Section) {
    x.id == 0 && x.name == Some("name")
  }

  predicate IsDebug(x: Section) {
    x.id == 0 && x.name.Some? && ".debug_" <= x.name.value
  }

  predicate Written(x: Section, strip: bool) {
    !IsName(x) && !(strip && IsDebug(x))
  }

  /** What the loop has gathered: every section but `name`, what is written, and the payload
      of the `name` section with its place among the others. */
  datatype Gathered = Gathered(others: seq<byte>, out: seq<byte>, names: Option<seq<byte>>, at: nat)

  function Gather(g: Gathered, x: Section, strip: bool): Gathered {
    if IsName(x) then g.(names := Some(x.payload), at := |g.others|)
    else g.(others := g.others + x.bytes, out := if Written(x, strip) then g.out + x.bytes else g.out)
  }

  function Walk(s: seq<byte>, strip: bool, g: Gathered): Result<Gathered, Failure>
    decreases |s|
  {
    if s == [] then Ok(g)
    else
      match ReadExtent(s)
      case Err(f) => Err(f)
      case Ok(e) =>
        var x := SectionOf(s, e);
        if IsName(x) && g.names.Some? then Err(TwoNames)
        else Walk(Tail(s, e.End()), strip, Gather(g, x, strip))
  }

  predicate Rebuilds(g: Gathered, data: seq<byte>)
    requires g.names.Some? && g.at <= |g.others|
  {
    g.others[..g.at] + Custom("name", g.names.value) + g.others[g.at..] == data
  }

  /** `main`: what is written and the names, or why nothing is. */
  function Split(data: seq<byte>, strip: bool): Result<(seq<byte>, seq<byte>), Failure> {
    if !(HEADER <= data) then Err(NotWasm)
    else
      match Walk(data[|HEADER|..], strip, Gathered(HEADER, HEADER, None, 0))
      case Err(f) => Err(f)
      case Ok(g) =>
        if g.names.None? then Err(NoNames)
        else if g.at <= |g.others| && Rebuilds(g, data) then Ok((g.out, g.names.value))
        else Err(NotRoundTrip)
  }

  /** `sections`, one step at a place in the file. */
  method NextExtent(data: seq<byte>, at: nat) returns (r: Result<Extent, Failure>)
    requires at < |data|
    ensures r == ReadExtent(data[at..])
  {
    hide Leb.Decode, Utf8.Decode, Slice;
    ghost var s := data[at..];
    var size := Leb.ReadLeb(data, at + 1);
    Shifted(data, at, at + 1, at + 1);
    if size.None? {
      return Err(RanOff);
    }
    var body := size.value.1;
    if data[at] != 0 {
      return Ok(Extent(data[at], body - at - 1, size.value.0, 0, 0, None));
    }
    Shifted(data, at, body, body);
    var length := Leb.ReadLeb(data, body);
    if length.None? {
      return Err(RanOff);
    }
    var from, to := length.value.1, length.value.1 + length.value.0;
    Shifted(data, at, from, to);
    var name := Utf8.Decode(Slice(data, from, to));
    if name.None? {
      return Err(NotText);
    }
    return Ok(Extent(0, body - at - 1, size.value.0, from - body, length.value.0, name));
  }

  method SplitModule(data: seq<byte>, strip: bool) returns (r: Result<(seq<byte>, seq<byte>), Failure>)
    ensures r == Split(data, strip)
  {
    hide ReadExtent, SectionOf, Gather, Rebuilds;
    if Slice(data, 0, 8) != HEADER {
      assert !(HEADER <= data) by { SliceIsPrefix(data); }
      return Err(NotWasm);
    }
    SliceIsPrefix(data);
    var g := Gathered(HEADER, HEADER, None, 0);
    ghost var start := g;
    var at := |HEADER|;
    ghost var rest := data[at..];
    while at < |data|
      invariant rest == Tail(data, at) && 8 <= at && g.at <= |g.others|
      invariant Walk(data[|HEADER|..], strip, start) == Walk(rest, strip, g)
      decreases |data| - at
    {
      var e := NextExtent(data, at);
      if e.Err? {
        return Err(e.error);
      }
      var x := SectionOf(data[at..], e.value);
      if IsName(x) && g.names.Some? {
        return Err(TwoNames);
      }
      rest := Tail(rest, e.value.End());
      GatherPlaces(g, x, strip);
      g := Gather(g, x, strip);
      at := at + e.value.End();
    }
    if g.names.None? {
      return Err(NoNames);
    }
    return if Rebuilds(g, data) then Ok((g.out, g.names.value)) else Err(NotRoundTrip);
  }

  lemma SliceIsPrefix(data: seq<byte>)
    ensures Slice(data, 0, 8) == HEADER <==> HEADER <= data
  {
  }

  lemma GatherPlaces(g: Gathered, x: Section, strip: bool)
    requires g.at <= |g.others|
    ensures Gather(g, x, strip).at <= |Gather(g, x, strip).others|
  {
  }

  // ----- What it comes to -----

  function Names(xs: seq<Section>): nat {
    if xs == [] then 0 else (if IsName(xs[0]) then 1 else 0) + Names(xs[1..])
  }

  /** The sections that are written, in their order. */
  function Kept(xs: seq<Section>, strip: bool): (r: seq<Section>) {
    if xs == [] then [] else (if Written(xs[0], strip) then [xs[0]] else []) + Kept(xs[1..], strip)
  }

  function NameAt(xs: seq<Section>): (i: nat)
    ensures i <= |xs| && (i < |xs| ==> IsName(xs[i])) && forall k :: 0 <= k < i ==> !IsName(xs[k])
  {
    if xs == [] then 0 else if IsName(xs[0]) then 0 else 1 + NameAt(xs[1..])
  }

  /** What the loop holds after the given sections, of which at most one is a `name` section. */
  function After(g: Gathered, xs: seq<Section>, strip: bool): Gathered {
    var i := NameAt(xs);
    Gathered(g.others + BytesOf(Kept(xs, false)), g.out + BytesOf(Kept(xs, strip)),
             if i < |xs| then Some(xs[i].payload) else g.names,
             if i < |xs| then |g.others| + |BytesOf(xs[..i])| else g.at)
  }

  lemma {:induction false} NoneNamed(xs: seq<Section>)
    ensures Names(xs) == 0 <==> NameAt(xs) == |xs|
  {
    if xs != [] {
      NoneNamed(xs[1..]);
    }
  }

  lemma {:induction false} OthersUnchanged(xs: seq<Section>)
    requires Names(xs) == 0
    ensures Kept(xs, false) == xs
  {
    if xs != [] {
      OthersUnchanged(xs[1..]);
    }
  }

  lemma AfterName(g: Gathered, x: Section, xs: seq<Section>, strip: bool)
    requires IsName(x) && Names(xs) == 0
    ensures After(g, [x] + xs, strip) == After(Gather(g, x, strip), xs, strip)
  {
    var all := [x] + xs;
    assert all[1..] == xs && all[0] == x && all[..0] == [];
    NoneNamed(xs);
    KeptFirst(g.others, x, xs, false);
    KeptFirst(g.out, x, xs, strip);
  }

  lemma AfterOther(g: Gathered, x: Section, xs: seq<Section>, strip: bool)
    requires !IsName(x)
    ensures After(g, [x] + xs, strip) == After(Gather(g, x, strip), xs, strip)
  {
    var all := [x] + xs;
    assert all[1..] == xs && all[0] == x;
    KeptFirst(g.others, x, xs, false);
    KeptFirst(g.out, x, xs, strip);
    var i := NameAt(xs);
    assert NameAt(all) == i + 1;
    if i < |xs| {
      assert all[i + 1] == xs[i];
      assert all[..i + 1][0] == x && all[..i + 1][1..] == xs[..i];
    }
  }

  lemma KeptFirst(out: seq<byte>, x: Section, xs: seq<Section>, strip: bool)
    ensures out + BytesOf(Kept([x] + xs, strip))
            == (if Written(x, strip) then out + x.bytes else out) + BytesOf(Kept(xs, strip))
  {
    var all := [x] + xs;
    assert all[1..] == xs && all[0] == x;
    if Written(x, strip) {
      assert ([x] + Kept(xs, strip))[1..] == Kept(xs, strip);
      assert out + (x.bytes + BytesOf(Kept(xs, strip))) == out + x.bytes + BytesOf(Kept(xs, strip));
    } else {
      assert [] + Kept(xs, strip) == Kept(xs, strip);
    }
  }

  /** The loop succeeds on every module that parses and has at most one `name` section. */
  lemma {:induction false} WalkGathers(s: seq<byte>, strip: bool, g: Gathered)
    ensures var found := if g.names.Some? then 1 else 0;
            && (Walk(s, strip, g).Ok? <==> Parse(s).Ok? && found + Names(Parse(s).value) <= 1)
            && (Walk(s, strip, g).Ok? ==> Walk(s, strip, g).value == After(g, Parse(s).value, strip))
    decreases |s|
  {
    hide ReadExtent, SectionOf, After, Gather, IsName;
    if s == [] {
      NothingGathered(g, strip);
    } else if ReadExtent(s).Ok? {
      var e := ReadExtent(s).value;
      var x, rest := SectionOf(s, e), Tail(s, e.End());
      WalkGathers(rest, strip, Gather(g, x, strip));
      Found(g, x, strip);
      if Parse(rest).Ok? {
        var xs := Parse(rest).value;
        assert ([x] + xs)[1..] == xs;
        if IsName(x) && Names(xs) == 0 {
          AfterName(g, x, xs, strip);
        } else if !IsName(x) {
          AfterOther(g, x, xs, strip);
        }
      }
    }
  }

  lemma NothingGathered(g: Gathered, strip: bool)
    ensures After(g, [], strip) == g
  {
  }

  lemma Found(g: Gathered, x: Section, strip: bool)
    ensures Gather(g, x, strip).names.Some? <==> g.names.Some? || IsName(x)
  {
  }

  /** Each section of a module can be built anew exactly if it is whole and minimal. */
  lemma {:induction false} SectionRebuilds(s: seq<byte>, i: nat)
    requires Parse(s).Ok? && i < |Parse(s).value| && Parse(s).value[i].id == 0
    ensures var x := Parse(s).value[i];
            x.name.Some? && (x.bytes == Custom(x.name.value, x.payload) <==> x.whole && x.minimal)
    decreases |s|
  {
    hide ReadExtent, Custom;
    var e := ReadExtent(s).value;
    if i == 0 {
      RebuildsExactly(s, e);
    } else {
      SectionRebuilds(Tail(s, e.End()), i - 1);
    }
  }

  lemma WithoutOne(xs: seq<Section>, i: nat)
    requires i < |xs|
    ensures i == 0 ==> [] + xs[1..] == xs[..i] + xs[i + 1..]
    ensures i > 0 ==> [xs[0]] + (xs[1..][..i - 1] + xs[1..][i..]) == xs[..i] + xs[i + 1..]
  {
  }

  lemma KeptAround(xs: seq<Section>, i: nat)
    requires i < |xs| && i == NameAt(xs) && Names(xs) == 1
    ensures Kept(xs, false) == xs[..i] + xs[i + 1..]
    decreases |xs|
  {
    hide IsName;
    if i == 0 {
      OthersUnchanged(xs[1..]);
    } else {
      KeptAround(xs[1..], i - 1);
    }
    WithoutOne(xs, i);
  }

  /** Putting something in the place of a section gives the module exactly if it is the section. */
  lemma Replaced(front: seq<byte>, section: seq<byte>, back: seq<byte>, other: seq<byte>)
    ensures front + other + back == front + section + back <==> other == section
  {
    if front + other + back == front + section + back {
      assert |other| == |section|;
      assert (front + other + back)[|front|..|front| + |other|] == other;
      assert (front + section + back)[|front|..|front| + |section|] == section;
    }
  }

  lemma BytesAround(xs: seq<Section>, i: nat)
    requires i < |xs|
    ensures BytesOf(xs) == BytesOf(xs[..i]) + xs[i].bytes + BytesOf(xs[i + 1..])
  {
    assert xs == xs[..i] + xs[i..];
    BytesAppend(xs[..i], xs[i..]);
    assert xs[i..][1..] == xs[i + 1..];
  }

  /** The sections around the one left out, and its place between them. */
  lemma GatheredAround(g: Gathered, xs: seq<Section>, i: nat, strip: bool)
    requires Names(xs) == 1 && i < |xs| && i == NameAt(xs)
    ensures var front, back, h := g.others + BytesOf(xs[..i]), BytesOf(xs[i + 1..]), After(g, xs, strip);
            h.at <= |h.others| && h.others[..h.at] == front && h.others[h.at..] == back
  {
    hide BytesOf, Kept;
    KeptAround(xs, i);
    BytesAppend(xs[..i], xs[i + 1..]);
    var front, back := g.others + BytesOf(xs[..i]), BytesOf(xs[i + 1..]);
    assert After(g, xs, strip).others == front + back;
  }

  /** The check that nothing is lost passes exactly if the `name` section is whole and minimal. */
  lemma ChecksExactly(data: seq<byte>, strip: bool)
    requires HEADER <= data && Parse(data[8..]).Ok? && Names(Parse(data[8..]).value) == 1
    ensures var xs := Parse(data[8..]).value;
            var g := After(Gathered(HEADER, HEADER, None, 0), xs, strip);
            && NameAt(xs) < |xs| && g.names.Some? && g.at <= |g.others|
            && (Rebuilds(g, data) <==> xs[NameAt(xs)].whole && xs[NameAt(xs)].minimal)
  {
    hide Custom, Parse, BytesOf, Kept;
    var xs := Parse(data[8..]).value;
    var start := Gathered(HEADER, HEADER, None, 0);
    NoneNamed(xs);
    var i := NameAt(xs);
    GatheredAround(start, xs, i, strip);
    BytesAround(xs, i);
    BytesParsed(data[8..]);
    SectionRebuilds(data[8..], i);
    var front, back := HEADER + BytesOf(xs[..i]), BytesOf(xs[i + 1..]);
    assert data == HEADER + (BytesOf(xs[..i]) + xs[i].bytes + back) == front + xs[i].bytes + back;
    Replaced(front, xs[i].bytes, back, Custom("name", xs[i].payload));
  }

  /** The split succeeds exactly on modules with one `name` section whose numbers are in their
      shortest form and which ends, like its name, where it says. */
  lemma SplitsExactly(data: seq<byte>, strip: bool)
    ensures Split(data, strip).Ok? <==>
            && HEADER <= data && Parse(data[8..]).Ok?
            && var xs := Parse(data[8..]).value;
            && Names(xs) == 1 && NameAt(xs) < |xs| && xs[NameAt(xs)].whole && xs[NameAt(xs)].minimal
  {
    hide Walk, Rebuilds, Parse;
    if HEADER <= data {
      var start := Gathered(HEADER, HEADER, None, 0);
      WalkGathers(data[8..], strip, start);
      if Parse(data[8..]).Ok? {
        var xs := Parse(data[8..]).value;
        NoneNamed(xs);
        if Names(xs) == 1 {
          ChecksExactly(data, strip);
        }
      }
    }
  }

  /** What is written parses to the other sections, in order and unchanged, without the debug
      sections if asked; the names are the payload of the section left out. */
  lemma SplitGives(data: seq<byte>, strip: bool)
    requires Split(data, strip).Ok?
    ensures var (out, names) := Split(data, strip).value;
            && HEADER <= data && Parse(data[8..]).Ok?
            && var xs := Parse(data[8..]).value;
            && NameAt(xs) < |xs| && names == xs[NameAt(xs)].payload
            && out == HEADER + BytesOf(Kept(xs, strip))
            && (AllWhole(xs) ==> Parse(out[8..]) == Ok(Kept(xs, strip)))
  {
    hide Walk, Rebuilds, Parse;
    SplitsExactly(data, strip);
    var xs := Parse(data[8..]).value;
    NoneNamed(xs);
    WalkGathers(data[8..], strip, Gathered(HEADER, HEADER, None, 0));
    var out := Split(data, strip).value.0;
    assert out[8..] == BytesOf(Kept(xs, strip));
    if AllWhole(xs) {
      WholeIsFree(data[8..]);
      KeptFree(xs, strip);
      ParseFree(Kept(xs, strip));
    }
  }

  lemma {:induction false} KeptFree(xs: seq<Section>, strip: bool)
    requires AllFree(xs)
    ensures AllFree(Kept(xs, strip))
  {
    hide Free, Written;
    if xs != [] {
      assert AllFree(xs[1..]);
      KeptFree(xs[1..], strip);
    }
  }

  /** What is written: every section that is no `name` section and, if debug sections are to go, no
      custom section whose name begins with `.debug_`. */
  lemma {:induction false} KeptExact(xs: seq<Section>, strip: bool, x: Section)
    ensures x in Kept(xs, strip) <==>
            && x in xs && !(x.id == 0 && x.name == Some("name"))
            && !(strip && x.id == 0 && x.name.Some? && ".debug_" <= x.name.value)
  {
    if xs != [] {
      KeptExact(xs[1..], strip, x);
      assert x in xs <==> x == xs[0] || x in xs[1..];
    }
  }

  // ----- A module that is refused -----

  // a custom section called "name", its size 5 written in two bytes
  const LONG_SIZE: seq<byte> := [0, 0x85, 0, 4, 110, 97, 109, 101]

  lemma NameBytes()
    ensures Utf8.Decode([110, 97, 109, 101]) == Some("name")
  {
    assert Utf8.Encode("e") == [101] by { assert "e"[1..] == ""; }
    assert Utf8.Encode("me") == [109, 101] by { assert "me"[1..] == "e"; }
    assert Utf8.Encode("ame") == [97, 109, 101] by { assert "ame"[1..] == "me"; }
    assert Utf8.Encode("name") == [110, 97, 109, 101] by { assert "name"[1..] == "ame"; }
    Utf8.DecodeEncode("name");
  }

  lemma LongSizeRead()
    ensures ReadExtent(LONG_SIZE) == Ok(Extent(0, 2, 5, 1, 4, Some("name")))
  {
    hide Utf8.Decode;
    NameBytes();
    assert LONG_SIZE[1..][1..] == [0, 4, 110, 97, 109, 101];
    assert LONG_SIZE[1 + 2..] == [4, 110, 97, 109, 101];
    assert Slice(LONG_SIZE, 4, 8) == [110, 97, 109, 101];
  }

  /** A valid module with one `name` section is refused when the size of that section is not
      written in its shortest form. */
  lemma LongSizeIsRefused(strip: bool)
    ensures Split(HEADER + LONG_SIZE, strip) == Err(NotRoundTrip)
  {
    hide Walk, Rebuilds, ReadExtent;
    var data := HEADER + LONG_SIZE;
    LongSizeRead();
    var x := SectionOf(LONG_SIZE, Extent(0, 2, 5, 1, 4, Some("name")));
    assert data[8..] == LONG_SIZE && Tail(LONG_SIZE, 8) == [];
    assert Parse([]) == Ok([]) && [x] + [] == [x];
    assert Parse(LONG_SIZE) == Ok([x]);
    assert [x][1..] == [];
    assert !x.minimal;
    ChecksExactly(data, strip);
    WalkGathers(data[8..], strip, Gathered(HEADER, HEADER, None, 0));
  }
}
