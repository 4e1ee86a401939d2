/** UTF-8 as `String::from_utf8` accepts it: shortest forms of Unicode scalar values only. */
module Utf8 {
  import opened Bytes

  function Head(n: nat, lead: nat): byte
    requires lead + n < 256
  {
    lead + n
  }

  /** The continuation byte that carries the low six bits of `n`. */
  function Tail(n: nat): byte {
    0x80 + n % 64
  }

  function EncodeChar(c: char): (r: seq<byte>)
    ensures 0 < |r|
  {
    var n := c as int;
    if n < 0x80 then [n]
    else if n < 0x800 then [Head(n / 64, 0xC0), Tail(n)]
    else if n < 0x10000 then [Head(n / 4096, 0xE0), Tail(n / 64), Tail(n)]
    else [Head(n / 262144, 0xF0), Tail(n / 4096), Tail(n / 64), Tail(n)]
  }

  function Encode(s: string): seq<byte> {
    if s == "" then [] else EncodeChar(s[0]) + Encode(s[1..])
  }

  predicate Continues(b: seq<byte>, k: nat) {
    k < |b| && 0x80 <= b[k] < 0xC0
  }

  function Bits(b: seq<byte>, k: nat): nat
    requires Continues(b, k)
  {
    b[k] - 0x80
  }

  predicate Scalar(n: int) {
    0 <= n < 0xD800 || 0xE000 <= n < 0x110000
  }

  /** A character of the given value, refused below `least` and outside the scalar values. */
  function Checked(n: nat, least: nat, width: nat): Option<(char, nat)> {
    if least <= n && Scalar(n) then Some((n as char, width)) else None
  }

  /** The first character and its number of bytes. */
  function First(b: seq<byte>): (r: Option<(char, nat)>)
    requires b != []
    ensures r.Some? ==> 0 < r.value.1 <= |b|
  {
    var lead := b[0];
    if lead < 0x80 then Some((lead as char, 1))
    else if 0xC0 <= lead < 0xE0 && Continues(b, 1) then
      Checked((lead - 0xC0) * 64 + Bits(b, 1), 0x80, 2)
    else if 0xE0 <= lead < 0xF0 && Continues(b, 1) && Continues(b, 2) then
      Checked((lead - 0xE0) * 4096 + Bits(b, 1) * 64 + Bits(b, 2), 0x800, 3)
    else if 0xF0 <= lead < 0xF8 && Continues(b, 1) && Continues(b, 2) && Continues(b, 3) then
      Checked((lead - 0xF0) * 262144 + Bits(b, 1) * 4096 + Bits(b, 2) * 64 + Bits(b, 3), 0x10000, 4)
    else None
  }

  function Decode(b: seq<byte>): Option<string>
    decreases |b|
  {
    if b == [] then Some("")
    else
      match First(b)
      case None => None
      case Some((c, width)) =>
        match Decode(b[width..])
        case None => None
        case Some(s) => Some([c] + s)
  }

  lemma SixBits(n: nat)
    ensures n == n / 64 * 64 + n % 64 && n / 4096 == n / 64 / 64 && n / 262144 == n / 64 / 64 / 64
  {
  }

  lemma FirstEncoded(c: char, b: seq<byte>)
    requires EncodeChar(c) <= b
    ensures First(b) == Some((c, |EncodeChar(c)|))
  {
    var n := c as int;
    var e := EncodeChar(c);
    assert forall k :: 0 <= k < |e| ==> b[k] == e[k];
    SixBits(n);
    SixBits(n / 64);
    SixBits(n / 4096);
    if 0x80 <= n < 0x800 {
      assert Continues(b, 1);
    } else if 0x800 <= n < 0x10000 {
      assert Continues(b, 1) && Continues(b, 2);
    } else if 0x10000 <= n {
      assert Continues(b, 1) && Continues(b, 2) && Continues(b, 3);
    }
  }

  /** Decoding gives back every text that was encoded. */
  lemma {:induction false} DecodeEncode(s: string)
    ensures Decode(Encode(s)) == Some(s)
  {
    if s != "" {
      var e, rest := EncodeChar(s[0]), Encode(s[1..]);
      FirstEncoded(s[0], e + rest);
      assert (e + rest)[|e|..] == rest;
      DecodeEncode(s[1..]);
      assert [s[0]] + s[1..] == s;
    }
  }

  lemma EncodeTwo(b: seq<byte>, n: nat)
    requires |b| >= 2 && 0xC0 <= b[0] < 0xE0 && Continues(b, 1) && n == (b[0] - 0xC0) * 64 + Bits(b, 1) && n >= 0x80
    ensures Scalar(n) && EncodeChar(n as char) == b[..2]
  {
    TwoParts(b[0] - 0xC0, Bits(b, 1));
  }

  lemma EncodeThree(b: seq<byte>, n: nat)
    requires |b| >= 3 && 0xE0 <= b[0] < 0xF0 && Continues(b, 1) && Continues(b, 2)
    requires n == (b[0] - 0xE0) * 4096 + Bits(b, 1) * 64 + Bits(b, 2) && n >= 0x800 && Scalar(n)
    ensures EncodeChar(n as char) == b[..3]
  {
    var m := (b[0] - 0xE0) * 64 + Bits(b, 1);
    TwoParts(b[0] - 0xE0, Bits(b, 1));
    TwoParts(m, Bits(b, 2));
    SixBits(n);
  }

  lemma EncodeFour(b: seq<byte>, n: nat)
    requires |b| >= 4 && 0xF0 <= b[0] < 0xF8 && Continues(b, 1) && Continues(b, 2) && Continues(b, 3)
    requires n == (b[0] - 0xF0) * 262144 + Bits(b, 1) * 4096 + Bits(b, 2) * 64 + Bits(b, 3)
    requires n >= 0x10000 && Scalar(n)
    ensures EncodeChar(n as char) == b[..4]
  {
    var m := (b[0] - 0xF0) * 64 + Bits(b, 1);
    TwoParts(b[0] - 0xF0, Bits(b, 1));
    TwoParts(m, Bits(b, 2));
    TwoParts(m * 64 + Bits(b, 2), Bits(b, 3));
    SixBits(n);
  }

  lemma EncodeFirst(b: seq<byte>)
    requires b != [] && First(b).Some?
    ensures EncodeChar(First(b).value.0) == b[..First(b).value.1]
  {
    hide EncodeChar;
    var lead, c, w := b[0], First(b).value.0, First(b).value.1;
    if lead < 0x80 {
      EncodeOne(b);
    } else if w == 2 {
      EncodeTwo(b, c as int);
    } else if w == 3 {
      EncodeThree(b, c as int);
    } else {
      EncodeFour(b, c as int);
    }
  }

  lemma EncodeOne(b: seq<byte>)
    requires b != [] && b[0] < 0x80
    ensures EncodeChar(b[0] as char) == b[..1]
  {
  }

  lemma TwoParts(high: nat, low: nat)
    requires low < 64
    ensures (high * 64 + low) / 64 == high && (high * 64 + low) % 64 == low
  {
  }

  /** Only shortest forms decode, so encoding gives back the bytes. */
  lemma {:induction false} EncodeDecode(b: seq<byte>)
    requires Decode(b).Some?
    ensures Encode(Decode(b).value) == b
    decreases |b|
  {
    hide EncodeChar, First;
    if b != [] {
      var (c, w) := First(b).value;
      EncodeFirst(b);
      EncodeDecode(b[w..]);
      var rest := Decode(b[w..]).value;
      assert ([c] + rest)[1..] == rest;
      assert b == b[..w] + b[w..];
    }
  }

  lemma AsciiByte(c: char, x: byte)
    requires x < 128
    ensures x in EncodeChar(c) <==> x as char == c
  {
    assert EncodeChar(c)[0] in EncodeChar(c);
  }

  /** A byte below 128 stands for itself only. */
  lemma {:induction false} AsciiBytes(s: string, x: byte)
    requires x < 128
    ensures x in Encode(s) <==> x as char in s
  {
    if s != "" {
      AsciiBytes(s[1..], x);
      AsciiByte(s[0], x);
      InFirstOrRest(s, x as char);
    }
  }

  lemma InFirstOrRest(s: string, c: char)
    requires s != ""
    ensures c in s <==> c == s[0] || c in s[1..]
  {
    assert s == [s[0]] + s[1..];
  }

  lemma {:induction false} EncodeAppend(a: string, b: string)
    ensures Encode(a + b) == Encode(a) + Encode(b)
  {
    if a == "" {
      assert a + b == b;
    } else {
      assert (a + b)[1..] == a[1..] + b;
      EncodeAppend(a[1..], b);
    }
  }

  /** A byte below 128 ends the encoding only of a text that ends with it. */
  lemma LastByte(s: string, x: byte)
    requires x < 128 && s != "" && s[|s| - 1] != x as char
    ensures Encode(s) != [] && Encode(s)[|Encode(s)| - 1] != x
  {
    var last := [s[|s| - 1]];
    assert s == s[..|s| - 1] + last;
    EncodeAppend(s[..|s| - 1], last);
    assert last[1..] == "";
    assert Encode(last) == EncodeChar(last[0]);
  }
}
