/**
 Unsigned LEB128 numbers, and the maps of packages/wasi-pnpm/names.py and
 scripts/split-name-section.py that are made of them. Python's integers have no width.
 */
module Leb {
  import opened Bytes
  import opened BitStrings

  /** A number at the front of the bytes, and how many of them it takes; nothing where Python
      runs off the end. */
  function Decode(s: seq<byte>): (r: Option<(nat, nat)>)
    ensures r.Some? ==> 0 < r.value.1 <= |s|
  {
    if s == [] then None
    else if s[0] < 0x80 then Some((s[0], 1))
    else
      match Decode(s[1..])
      case None => None
      case Some((v, n)) => Some((s[0] - 0x80 + 0x80 * v, n + 1))
  }

  function Encode(v: nat): (r: seq<byte>)
    ensures r != []
  {
    if v < 0x80 then [v] else [v % 0x80 + 0x80] + Encode(v / 0x80)
  }

  function Power(k: nat): nat {
    if k == 0 then 1 else 128 * Power(k - 1)
  }

  /** Seven bits of each byte, the first byte's lowest. */
  function Weighed(s: seq<byte>, n: nat): nat
    requires n <= |s|
  {
    if n == 0 then 0 else Weighed(s, n - 1) + s[n - 1] % 128 * Power(n - 1)
  }

  /** A number is those bits of its bytes, the last of which alone is below 128. */
  lemma {:induction false} DecodeExact(s: seq<byte>)
    requires Decode(s).Some?
    ensures var (v, n) := Decode(s).value;
            && 0 < n <= |s| && s[n - 1] < 128 && (forall k :: 0 <= k < n - 1 ==> s[k] >= 128)
            && v == Weighed(s, n)
  {
    if s[0] < 0x80 {
      assert Weighed(s, 0) == 0 && Weighed(s, 1) == s[0] % 128 * Power(0);
    } else {
      DecodeExact(s[1..]);
      var n := Decode(s[1..]).value.1;
      assert s[1..][n - 1] == s[n];
      WeighedShift(s, n);
    }
  }

  lemma {:induction false} WeighedShift(s: seq<byte>, n: nat)
    requires n + 1 <= |s|
    ensures Weighed(s, n + 1) == s[0] % 128 + 128 * Weighed(s[1..], n)
  {
    if n == 0 {
      assert Weighed(s, 0) == 0 && Power(0) == 1;
    } else {
      WeighedShift(s, n - 1);
      Scaled(s[n] % 128, Power(n - 1));
    }
  }

  lemma Scaled(b: nat, p: nat)
    ensures b * (128 * p) == 128 * (b * p)
  {
  }

  /** Decoding undoes encoding, whatever follows. */
  lemma {:induction false} RoundTrip(v: nat, tail: seq<byte>)
    ensures Decode(Encode(v) + tail) == Some((v, |Encode(v)|))
  {
    var s := Encode(v) + tail;
    if v >= 0x80 {
      RoundTrip(v / 0x80, tail);
      assert s[1..] == Encode(v / 0x80) + tail;
    }
  }

  /** No encoding is a beginning of another, so the bytes of a number are the encoder's
      exactly when they do not end in a needless zero. */
  lemma {:induction false} Minimal(s: seq<byte>)
    requires Decode(s).Some?
    ensures var (v, n) := Decode(s).value;
            |Encode(v)| <= n && (s[..n] == Encode(v) <==> n == 1 || s[n - 1] != 0)
  {
    if s[0] >= 0x80 {
      Minimal(s[1..]);
      var (v, n) := Decode(s[1..]).value;
      var w := s[0] - 0x80 + 0x80 * v;
      assert w % 0x80 == s[0] - 0x80 && w / 0x80 == v;
      assert s[..n + 1] == [s[0]] + s[1..][..n];
      assert s[1..][n - 1] == s[n];
      ZeroLast(s[1..]);
    }
  }

  /** A number is zero when all its bytes carry zero; one byte is enough for that. */
  lemma {:induction false} ZeroLast(s: seq<byte>)
    requires Decode(s).Some?
    ensures Decode(s).value.0 == 0 ==> s[Decode(s).value.1 - 1] == 0
  {
    if s[0] >= 0x80 {
      ZeroLast(s[1..]);
    }
  }

  // ----- The loops -----

  lemma SevenMore(n: nat)
    ensures Pow2(n + 7) == 0x80 * Pow2(n)
  {
    assert Pow2(n + 7) == 2 * Pow2(n + 6) && Pow2(n + 6) == 2 * Pow2(n + 5);
    assert Pow2(n + 5) == 2 * Pow2(n + 4) && Pow2(n + 4) == 2 * Pow2(n + 3);
    assert Pow2(n + 3) == 2 * Pow2(n + 2) && Pow2(n + 2) == 2 * Pow2(n + 1);
  }

  lemma Product(a: nat, b: nat)
    ensures a * b >= 0
  {
  }

  /** The low seven bits of a byte, shifted to their place. */
  function Shifted(b: byte, shift: nat): nat {
    Product(b % 0x80, Pow2(shift));
    b % 0x80 * Pow2(shift)
  }

  /** What the bytes read so far, and a number behind them, come to. */
  function Ahead(value: nat, shift: nat, read: nat, rest: seq<byte>): Option<(nat, nat)> {
    match Decode(rest)
    case None => None
    case Some((v, n)) =>
      Product(v, Pow2(shift));
      Some((value + v * Pow2(shift), read + n))
  }

  lemma AheadStep(value: nat, shift: nat, read: nat, rest: seq<byte>)
    requires rest != [] && rest[0] >= 0x80
    ensures Ahead(value, shift, read, rest)
            == Ahead(value + Shifted(rest[0], shift), shift + 7, read + 1, rest[1..])
  {
    SevenMore(shift);
    var p, low := Pow2(shift), rest[0] - 0x80;
    assert rest[0] % 0x80 == low;
    match Decode(rest[1..]) {
      case None =>
      case Some((v, n)) => Distribute(low, v, p);
    }
  }

  lemma AheadStart(rest: seq<byte>)
    ensures Ahead(0, 0, 0, rest) == Decode(rest)
  {
  }

  lemma AheadEnd(value: nat, shift: nat, read: nat, rest: seq<byte>)
    requires rest != [] && rest[0] < 0x80
    ensures Ahead(value, shift, read, rest) == Some((value + Shifted(rest[0], shift), read + 1))
  {
  }

  lemma Distribute(low: nat, v: nat, p: nat)
    ensures (low + 0x80 * v) * p == low * p + v * (0x80 * p)
  {
  }

  /** `leb`: the low seven bits of each byte, at ever higher positions. */
  method ReadLeb(data: seq<byte>, from: nat) returns (r: Option<(nat, nat)>)
    requires from <= |data|
    ensures r == match Decode(data[from..]) case None => None case Some((v, n)) => Some((v, from + n))
  {
    hide Pow2, Shifted;
    var at: nat, value: nat, shift: nat := from, 0, 0;
    ghost var rest := data[from..];
    AheadStart(rest);
    while at < |data|
      invariant from <= at <= |data| && rest == data[at..]
      invariant Decode(data[from..]) == Ahead(value, shift, at - from, rest)
    {
      var b := data[at];
      at := at + 1;
      if b < 0x80 {
        AheadEnd(value, shift, at - 1 - from, rest);
        return Some((value + Shifted(b, shift), at));
      }
      AheadStep(value, shift, at - 1 - from, rest);
      value := value + Shifted(b, shift);
      shift := shift + 7;
      rest := rest[1..];
    }
    return None;
  }

  /** `enc`. */
  method WriteLeb(value: nat) returns (out: seq<byte>)
    ensures out == Encode(value)
  {
    out := [];
    var v := value;
    while true
      invariant out + Encode(v) == Encode(value)
      decreases v
    {
      var low: byte := v % 0x80;
      ghost var was := v;
      v := v / 0x80;
      if v != 0 {
        out := out + [low + 0x80];
      } else {
        return out + [low];
      }
    }
  }
}
