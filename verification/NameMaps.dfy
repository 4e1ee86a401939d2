/**
 The payload of a `name` section: subsections, and maps from an index to a name
 (packages/wasi-pnpm/names.py).
 */
module NameMaps {
  import opened Bytes
  import opened WasmSections
  import Leb

  type Entry = (nat, seq<byte>)
  type Subsection = (byte, seq<byte>)

  // ----- Subsections -----

  function Subsections(p: seq<byte>): Option<seq<Subsection>>
    decreases |p|
  {
    if p == [] then Some([])
    else
      match Leb.Decode(p[1..])
      case None => None
      case Some((size, n)) =>
        match Subsections(Tail(p, 1 + n + size))
        case None => None
        case Some(more) => Some([(p[0], Slice(p, 1 + n, 1 + n + size))] + more)
  }

  function SubsectionBytes(x: Subsection): seq<byte> {
    [x.0] + Leb.Encode(|x.1|) + x.1
  }

  /** The payload `main` writes. */
  function Join(xs: seq<Subsection>): seq<byte> {
    if xs == [] then [] else SubsectionBytes(xs[0]) + Join(xs[1..])
  }

  lemma {:induction false} SubsectionsRoundTrip(xs: seq<Subsection>)
    ensures Subsections(Join(xs)) == Some(xs)
    decreases |xs|
  {
    hide Leb.Decode, Leb.Encode;
    if xs != [] {
      var (id, body) := xs[0];
      var size, rest := Leb.Encode(|body|), Join(xs[1..]);
      var p := Join(xs);
      assert p[1..] == size + (body + rest);
      Leb.RoundTrip(|body|, body + rest);
      Behind(p, 1 + |size|, body, rest);
      SubsectionsRoundTrip(xs[1..]);
      assert [xs[0]] + xs[1..] == xs;
    }
  }

  lemma Behind(p: seq<byte>, n: nat, body: seq<byte>, rest: seq<byte>)
    requires n <= |p| && p[n..] == body + rest
    ensures Slice(p, n, n + |body|) == body && Tail(p, n + |body|) == rest
  {
    if body != [] {
      assert p[n..n + |body|] == p[n..][..|body|];
    }
    assert p[n + |body|..] == p[n..][|body|..];
  }

  // ----- Name maps -----

  /** The given number of entries, which must take up all of the bytes. */
  function Entries(s: seq<byte>, count: nat): Option<seq<Entry>> {
    if count == 0 then (if s == [] then Some([]) else None)
    else
      match Leb.Decode(s)
      case None => None
      case Some((index, n)) =>
        match Leb.Decode(s[n..])
        case None => None
        case Some((length, m)) =>
          if |s| - n - m < length then None
          else
            match Entries(s[n + m + length..], count - 1)
            case None => None
            case Some(more) => Some([(index, s[n + m..n + m + length])] + more)
  }

  /** `name_map`. */
  function NameMap(body: seq<byte>): Option<seq<Entry>> {
    match Leb.Decode(body)
    case None => None
    case Some((count, n)) => Entries(body[n..], count)
  }

  function EntryBytes(e: Entry): seq<byte> {
    Leb.Encode(e.0) + (Leb.Encode(|e.1|) + e.1)
  }

  function AllEntryBytes(es: seq<Entry>): seq<byte> {
    if es == [] then [] else EntryBytes(es[0]) + AllEntryBytes(es[1..])
  }

  /** `encode_map`. */
  function EncodeMap(es: seq<Entry>): seq<byte> {
    Leb.Encode(|es|) + AllEntryBytes(es)
  }

  lemma {:induction false} EntriesRoundTrip(es: seq<Entry>)
    ensures Entries(AllEntryBytes(es), |es|) == Some(es)
    decreases |es|
  {
    hide Leb.Decode, Leb.Encode;
    if es != [] {
      var (index, text) := es[0];
      var a, b, rest := Leb.Encode(index), Leb.Encode(|text|), AllEntryBytes(es[1..]);
      var s := AllEntryBytes(es);
      assert s == a + (b + (text + rest));
      Leb.RoundTrip(index, b + (text + rest));
      assert s[|a|..] == b + (text + rest);
      Leb.RoundTrip(|text|, text + rest);
      assert s[|a| + |b|..] == text + rest;
      assert s[|a| + |b|..|a| + |b| + |text|] == s[|a| + |b|..][..|text|] == text;
      assert s[|a| + |b| + |text|..] == s[|a| + |b|..][|text|..] == rest;
      EntriesRoundTrip(es[1..]);
      assert [es[0]] + es[1..] == es;
    }
  }

  /** Reading back a written map gives the same entries in the same order. */
  lemma NameMapRoundTrip(es: seq<Entry>)
    ensures NameMap(EncodeMap(es)) == Some(es)
  {
    hide Leb.Decode, Leb.Encode, Entries;
    Leb.RoundTrip(|es|, AllEntryBytes(es));
    EntriesRoundTrip(es);
    assert EncodeMap(es)[|Leb.Encode(|es|)|..] == AllEntryBytes(es);
  }

  // ----- The loops -----

  lemma SubsectionStep(out: seq<Subsection>, p: seq<byte>, size: nat, n: nat)
    requires p != [] && Leb.Decode(p[1..]) == Some((size, n))
    ensures Prepend(out, Subsections(p))
            == Prepend(out + [(p[0], Slice(p, 1 + n, 1 + n + size))], Subsections(Tail(p, 1 + n + size)))
  {
    hide Leb.Decode, Slice, Tail;
    var x, r := (p[0], Slice(p, 1 + n, 1 + n + size)), Subsections(Tail(p, 1 + n + size));
    if r.Some? {
      assert out + ([x] + r.value) == out + [x] + r.value;
    }
  }

  lemma TailAt(s: seq<byte>, at: nat)
    ensures Tail(s, at) == if at <= |s| then s[at..] else []
  {
  }

  /** `subsections`. */
  method ReadSubsections(payload: seq<byte>) returns (r: Option<seq<Subsection>>)
    ensures r == Subsections(payload)
  {
    hide Slice, Tail, Prepend, Leb.Decode;
    var at: nat := 0;
    var out: seq<Subsection> := [];
    ghost var rest := payload;
    TailAt(payload, 0);
    assert payload[0..] == payload;
    PrependNothing(Subsections(payload));
    while at < |payload|
      invariant rest == Tail(payload, at)
      invariant Subsections(payload) == Prepend(out, Subsections(rest))
      decreases |payload| - at
    {
      TailAt(payload, at);
      var size := Leb.ReadLeb(payload, at + 1);
      Shifted(payload, at, at + 1, at + 1);
      if size.None? {
        assert Subsections(rest) == None;
        PrependNone(out);
        return None;
      }
      var body, end := size.value.1, size.value.1 + size.value.0;
      Shifted(payload, at, body, end);
      SubsectionStep(out, rest, size.value.0, body - at - 1);
      out := out + [(payload[at], Slice(payload, body, end))];
      at := end;
      rest := Tail(payload, end);
    }
    TailAt(payload, at);
    PrependSome(out);
    return Some(out);
  }

  lemma PrependNone<T>(out: seq<T>)
    ensures Prepend(out, None) == None
  {
  }

  lemma PrependSome<T>(out: seq<T>)
    ensures Prepend(out, Some([])) == Some(out)
  {
    assert out + [] == out;
  }

  lemma EntryStep(out: seq<Entry>, s: seq<byte>, count: nat, index: nat, n: nat, length: nat, m: nat)
    requires count > 0 && Leb.Decode(s) == Some((index, n)) && Leb.Decode(s[n..]) == Some((length, m))
    ensures Prepend(out, Entries(s, count))
            == if |s| - n - m < length then None
               else Prepend(out + [(index, s[n + m..n + m + length])], Entries(s[n + m + length..], count - 1))
  {
    hide Leb.Decode;
    if |s| - n - m >= length {
      var x, r := (index, s[n + m..n + m + length]), Entries(s[n + m + length..], count - 1);
      if r.Some? {
        assert out + ([x] + r.value) == out + [x] + r.value;
      }
    }
  }

  /** One entry of `name_map`, at a place in the map; nothing if the map ends first. */
  method NextEntry(body: seq<byte>, at: nat, ghost out: seq<Entry>, ghost left: nat)
    returns (r: Option<(Entry, nat)>)
    requires at <= |body| && left > 0
    ensures r.None? ==> Prepend(out, Entries(body[at..], left)) == None
    ensures r.Some? ==>
              at < r.value.1 <= |body|
              && Prepend(out, Entries(body[at..], left))
                 == Prepend(out + [r.value.0], Entries(body[r.value.1..], left - 1))
  {
    hide Leb.Decode, Prepend;
    ghost var s := body[at..];
    var index := Leb.ReadLeb(body, at);
    if index.None? {
      PrependNone(out);
      return None;
    }
    var mid := index.value.1;
    assert s[mid - at..] == body[mid..];
    var n := Leb.ReadLeb(body, mid);
    if n.None? {
      PrependNone(out);
      return None;
    }
    var from, to := n.value.1, n.value.1 + n.value.0;
    EntryStep(out, s, left, index.value.0, mid - at, n.value.0, from - mid);
    if |body| < to {
      // the text runs off the end: neither another entry nor the final check gets past that
      return None;
    }
    Resliced(body, at, from, to);
    return Some(((index.value.0, body[from..to]), to));
  }

  /** `name_map`. */
  method ReadNameMap(body: seq<byte>) returns (r: Option<seq<Entry>>)
    ensures r == NameMap(body)
  {
    hide Leb.Decode, Prepend;
    var count := Leb.ReadLeb(body, 0);
    assert body[0..] == body;
    if count.None? {
      return None;
    }
    var at: nat, left: nat := count.value.1, count.value.0;
    var entries: seq<Entry> := [];
    PrependNothing(NameMap(body));
    while left > 0
      invariant at <= |body|
      invariant NameMap(body) == Prepend(entries, Entries(body[at..], left))
    {
      var next := NextEntry(body, at, entries, left);
      if next.None? {
        return None;
      }
      entries := entries + [next.value.0];
      at := next.value.1;
      left := left - 1;
    }
    if at != |body| {
      PrependNone(entries);
      return None;
    }
    PrependSome(entries);
    return Some(entries);
  }

  /** `encode_map`. */
  method WriteMap(es: seq<Entry>) returns (out: seq<byte>)
    ensures out == EncodeMap(es)
  {
    hide Leb.Encode;
    out := Leb.WriteLeb(|es|);
    var k := 0;
    ghost var rest := es;
    while k < |es|
      invariant 0 <= k <= |es| && rest == es[k..]
      invariant out + AllEntryBytes(rest) == EncodeMap(es)
    {
      var index := Leb.WriteLeb(es[k].0);
      var length := Leb.WriteLeb(|es[k].1|);
      EntryAppended(out, rest);
      out := out + (index + (length + es[k].1));
      rest := rest[1..];
      k := k + 1;
    }
  }

  lemma EntryAppended(out: seq<byte>, rest: seq<Entry>)
    requires rest != []
    ensures out + AllEntryBytes(rest) == out + EntryBytes(rest[0]) + AllEntryBytes(rest[1..])
  {
  }
}
