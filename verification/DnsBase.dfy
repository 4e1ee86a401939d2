/**
 The encoders of packages/wasi-dig/src/present.rs: hexadecimal, base64 and base32hex (sections
 8, 4 and 7 of RFC 4648), the first two in words as dig prints them.
 */
module DnsBase {
  import opened Bytes
  import opened BitStrings
  import opened Text

  const WORD := 58
  const USIZE_MAX := 0xFFFF_FFFF_FFFF_FFFF
  const U32 := 0x1_0000_0000

  // ----- The encodings, by their definition -----

  /** The digit for a group of `w` bits. */
  function Spell(w: nat, g: nat): char
    requires g < 64
  {
    if w < 6 then if g < 10 then ('0' as int + g) as char else ('A' as int + (g - 10)) as char
    else if g < 26 then ('A' as int + g) as char
    else if g < 52 then ('a' as int + (g - 26)) as char
    else if g < 62 then ('0' as int + (g - 52)) as char
    else if g == 62 then '+'
    else '/'
  }

  function Read(w: nat, c: char): Option<nat> {
    if w < 6 then
      if '0' <= c <= '9' then Some(c as int - '0' as int)
      else if 'A' <= c <= 'Z' && c as int - 'A' as int + 10 < Pow2(w) then Some(c as int - 'A' as int + 10)
      else None
    else if 'A' <= c <= 'Z' then Some(c as int - 'A' as int)
    else if 'a' <= c <= 'z' then Some(c as int - 'a' as int + 26)
    else if '0' <= c <= '9' then Some(c as int - '0' as int + 52)
    else if c == '+' then Some(62)
    else if c == '/' then Some(63)
    else None
  }

  predicate AllSmall(gs: seq<nat>) {
    forall k :: 0 <= k < |gs| ==> gs[k] < 64
  }

  function SpellAll(w: nat, gs: seq<nat>): (r: string)
    requires AllSmall(gs)
    ensures |r| == |gs|
  {
    if gs == [] then "" else [Spell(w, gs[0])] + SpellAll(w, gs[1..])
  }

  function ReadAll(w: nat, s: string): Option<seq<nat>> {
    if s == "" then Some([])
    else
      match (Read(w, s[0]), ReadAll(w, s[1..]))
      case (Some(g), Some(gs)) => Some([g] + gs)
      case _ => None
  }

  predicate Width(w: nat) {
    4 <= w <= 6
  }

  lemma SmallPowers(w: nat)
    requires w <= 6
    ensures Pow2(w) == (if w == 0 then 1 else if w == 1 then 2 else if w == 2 then 4 else if w == 3 then 8
                        else if w == 4 then 16 else if w == 5 then 32 else 64)
  {
    assert Pow2(0) == 1 && Pow2(1) == 2 && Pow2(2) == 4 && Pow2(3) == 8;
    assert Pow2(4) == 16 && Pow2(5) == 32 && Pow2(6) == 64;
  }

  lemma GroupsSmall(bits: seq<bool>, w: nat)
    requires Width(w)
    ensures AllSmall(Groups(bits, w))
  {
    SmallPowers(w);
  }

  /** The digits of the data, without spaces or padding. */
  function Digits(data: seq<byte>, w: nat): string
    requires Width(w)
  {
    Spelled(BitsOf(data), w)
  }

  function Spelled(bits: seq<bool>, w: nat): string
    requires Width(w)
  {
    GroupsSmall(bits, w);
    SpellAll(w, Groups(bits, w))
  }

  /** The data that digits stand for. */
  function Decode(s: string, w: nat): Option<seq<byte>> {
    match ReadAll(w, s)
    case None => None
    case Some(gs) => Some(Pack(Ungroup(gs, w)))
  }

  lemma ReadSpelled(w: nat, g: nat)
    requires Width(w) && g < Pow2(w)
    ensures g < 64 && Read(w, Spell(w, g)) == Some(g)
  {
    SmallPowers(w);
  }

  lemma {:induction false} ReadSpelledAll(w: nat, gs: seq<nat>)
    requires Width(w) && AllSmall(gs) && forall k :: 0 <= k < |gs| ==> gs[k] < Pow2(w)
    ensures ReadAll(w, SpellAll(w, gs)) == Some(gs)
  {
    hide Read, Spell;
    if gs != [] {
      ReadSpelled(w, gs[0]);
      ReadSpelledAll(w, gs[1..]);
      assert SpellAll(w, gs)[1..] == SpellAll(w, gs[1..]);
      assert [gs[0]] + gs[1..] == gs;
    }
  }

  /** Decoding the digits returns the data. */
  lemma DigitsDecode(data: seq<byte>, w: nat)
    requires Width(w)
    ensures Decode(Digits(data, w), w) == Some(data)
  {
    hide SpellAll, ReadAll, BitsOf, Pack, Groups, Ungroup;
    var bits := BitsOf(data);
    var gs := Groups(bits, w);
    GroupsSmall(bits, w);
    ReadSpelledAll(w, gs);
    UngroupGroups(bits, w);
    var back := Ungroup(gs, w);
    assert back == bits + back[|bits|..];
    PackBits(data, back[|bits|..]);
  }

  // ----- One group at a time -----

  lemma TopBits(v: nat, n: nat, w: nat)
    requires w <= n
    ensures v / Pow2(n - w) % Pow2(w) < Pow2(w)
    ensures Bits(v, n) == Bits(v / Pow2(n - w) % Pow2(w), w) + Bits(v, n - w)
  {
    hide Bits, Pow2;
    var p, high := Pow2(n - w), v / Pow2(n - w);
    var low := v % p;
    Division(v, p);
    BitsSplit(high, low, w, n - w);
    BitsLow(v, n - w, n - w);
    BitsLow(high, w, w);
  }

  lemma Division(v: nat, p: nat)
    requires p > 0
    ensures v == v / p * p + v % p && v % p < p
  {
  }

  /** The first `w` of at least as many bits. */
  lemma SpelledFirst(v: nat, n: nat, rest: seq<bool>, w: nat)
    requires Width(w) && w <= n
    ensures v / Pow2(n - w) % Pow2(w) < 64
    ensures Spelled(Bits(v, n) + rest, w)
            == [Spell(w, v / Pow2(n - w) % Pow2(w))] + Spelled(Bits(v, n - w) + rest, w)
  {
    hide Spelled, Spell, Bits;
    TopBits(v, n, w);
    var g := v / Pow2(n - w) % Pow2(w);
    SmallPowers(w);
    hide Pow2;
    ValueOfBits(g, w);
    FirstGroup(Bits(g, w), Bits(v, n - w) + rest, w);
    assert Bits(g, w) + (Bits(v, n - w) + rest) == Bits(v, n) + rest;
  }

  lemma FirstGroup(first: seq<bool>, rest: seq<bool>, w: nat)
    requires Width(w) && |first| == w
    ensures Value(first) < 64 && Spelled(first + rest, w) == [Spell(w, Value(first))] + Spelled(rest, w)
  {
    SmallPowers(w);
    GroupsSmall(first + rest, w);
    GroupsSmall(rest, w);
    var bits := first + rest;
    if rest == [] {
      assert bits + seq(0, _ => false) == first;
      assert Groups(bits, w) == [Value(first)];
      assert [Value(first)][1..] == [];
    } else {
      assert bits[..w] == first && bits[w..] == rest;
      assert Groups(bits, w)[1..] == Groups(rest, w);
    }
  }

  lemma FilledUp(v: nat, n: nat, w: nat)
    requires n <= w
    ensures v % Pow2(n) * Pow2(w - n) < Pow2(w)
    ensures Bits(v % Pow2(n) * Pow2(w - n), w) == Bits(v, n) + seq(w - n, _ => false)
  {
    hide Bits, Pow2;
    var low, p, q := v % Pow2(n), Pow2(n), Pow2(w - n);
    PowerSum(n, w - n);
    Apart(q, low, p);
    BitsLow(v, n, n);
    BitsSplit(low, 0, n, w - n);
    Zeros(w - n);
  }

  /** The last few bits, filled up with zeros. */
  lemma SpelledLast(v: nat, n: nat, w: nat)
    requires Width(w) && 0 < n < w
    ensures v % Pow2(n) * Pow2(w - n) < 64
    ensures Spelled(Bits(v, n), w) == [Spell(w, v % Pow2(n) * Pow2(w - n))]
  {
    hide Bits, Spell;
    SmallPowers(w);
    hide Pow2;
    FilledUp(v, n, w);
    var g := v % Pow2(n) * Pow2(w - n);
    ValueOfBits(g, w);
    OneGroup(Bits(v, n), w);
  }

  lemma OneGroup(bits: seq<bool>, w: nat)
    requires Width(w) && 0 < |bits| < w
    ensures var g := Value(bits + seq(w - |bits|, _ => false));
            g < 64 && Spelled(bits, w) == [Spell(w, g)]
  {
    hide Value, Pow2, Spell;
    GroupsSmall(bits, w);
    var g := Value(bits + seq(w - |bits|, _ => false));
    assert Groups(bits, w) == [g];
    hide Groups;
    assert [g][0] == g && [g][1..] == [];
  }

  lemma {:induction false} Zeros(n: nat)
    ensures Bits(0, n) == seq(n, _ => false)
  {
    if n > 0 {
      Zeros(n - 1);
    }
  }

  lemma NothingSpelled(w: nat)
    requires Width(w)
    ensures Spelled([], w) == ""
  {
  }

  // ----- base32hex -----

  /** What a `u32` keeps of a number. */
  function Wrap(v: nat): nat {
    v % U32
  }

  /** `base32hex`: five bits at a time from an accumulator whose upper bits are lost. */
  method Base32Hex(data: seq<byte>) returns (out: string)
    ensures out == Digits(data, 5)
  {
    hide Spelled, Spell, BitsOf, Bits, Wrap;
    out := "";
    var acc: nat, bits: nat := 0, 0;
    var i := 0;
    ghost var rest := data;
    Started(data);
    while i < |data|
      invariant 0 <= i <= |data| && rest == data[i..] && bits < 5
      invariant Digits(data, 5) == out + Spelled(Bits(acc, bits) + BitsOf(rest), 5)
    {
      var b := data[i];
      Accumulate(acc, bits, b, rest);
      acc := Wrap(acc * 256 + b);
      bits := bits + 8;
      rest := rest[1..];
      i := i + 1;
      while bits >= 5
        invariant Digits(data, 5) == out + Spelled(Bits(acc, bits) + BitsOf(rest), 5)
      {
        SpelledFirst(acc, bits, BitsOf(rest), 5);
        SmallPowers(5);
        bits := bits - 5;
        out := out + [Spell(5, acc / Pow2(bits) % 32)];
      }
    }
    NoBytes(acc, bits, rest);
    if bits > 0 {
      SpelledLast(acc, bits, 5);
      Shifted(acc, bits);
      out := out + [Spell(5, Wrap(acc * Pow2(5 - bits)) % 32)];
    } else {
      NothingSpelled(5);
      NoBits(acc);
    }
  }

  lemma Started(data: seq<byte>)
    ensures Digits(data, 5) == "" + Spelled(Bits(0, 0) + BitsOf(data), 5)
  {
    assert [] + BitsOf(data) == BitsOf(data);
  }

  lemma NoBits(v: nat)
    ensures Bits(v, 0) == []
  {
  }

  lemma NoBytes(acc: nat, bits: nat, rest: seq<byte>)
    requires rest == []
    ensures Bits(acc, bits) + BitsOf(rest) == Bits(acc, bits)
  {
  }

  /** A byte goes behind the bits that are still to be written; those are at most four, so
      that losing the upper bits of the accumulator does not matter. */
  lemma Accumulate(acc: nat, bits: nat, b: byte, rest: seq<byte>)
    requires rest != [] && rest[0] == b && bits < 5
    ensures Bits(acc, bits) + BitsOf(rest) == Bits(Wrap(acc * 256 + b), bits + 8) + BitsOf(rest[1..])
  {
    hide Bits, BitsOf, Wrap, Pow2;
    var front, one, more := Bits(acc, bits), Bits(b, 8), BitsOf(rest[1..]);
    assert rest == [b] + rest[1..];
    OneByte(b, rest[1..]);
    ByteBehind(acc, bits, b);
    Low32(acc * 256 + b, bits + 8);
    assert front + (one + more) == front + one + more;
  }

  lemma ByteBehind(acc: nat, bits: nat, b: byte)
    ensures Bits(acc * 256 + b, bits + 8) == Bits(acc, bits) + Bits(b, 8)
  {
    hide Bits, Pow2;
    EightBits();
    BitsSplit(acc, b, bits, 8);
  }

  lemma Low32(v: nat, n: nat)
    requires n <= 32
    ensures Bits(v, n) == Bits(Wrap(v), n)
  {
    hide Bits, Pow2;
    ThirtyTwoBits();
    BitsLow(v, n, 32);
  }

  lemma ThirtyTwoBits()
    ensures Pow2(32) == U32
  {
    PowerSum(8, 8);
    PowerSum(16, 16);
    EightBits();
  }

  lemma {:induction false} PowerSum(a: nat, b: nat)
    ensures Pow2(a + b) == Pow2(a) * Pow2(b)
  {
    if b > 0 {
      PowerSum(a, b - 1);
      Twice(Pow2(a), Pow2(b - 1));
    }
  }

  lemma Rem32(a: nat, r: nat)
    requires r < 32
    ensures (32 * a + r) % 32 == r
  {
  }

  lemma Nested(x: nat)
    ensures Wrap(x) % 32 == x % 32
  {
    var k, y := x / U32, x % U32;
    assert x == 32 * (134217728 * k + y / 32) + y % 32;
    Rem32(134217728 * k + y / 32, y % 32);
  }

  lemma MovedUp4(acc: nat)
    ensures acc * 16 % 32 == acc % 2 * 16
  {
    Rem32(acc / 2, acc % 2 * 16);
  }

  lemma MovedUp3(acc: nat)
    ensures acc * 8 % 32 == acc % 4 * 8
  {
    Rem32(acc / 4, acc % 4 * 8);
  }

  lemma MovedUp2(acc: nat)
    ensures acc * 4 % 32 == acc % 8 * 4
  {
    Rem32(acc / 8, acc % 8 * 4);
  }

  lemma MovedUp1(acc: nat)
    ensures acc * 2 % 32 == acc % 16 * 2
  {
    Rem32(acc / 16, acc % 16 * 2);
  }

  /** Multiplying by `q` moves the low bits up to the top of five. */
  lemma MovedUp(acc: nat, p: nat, q: nat)
    requires (p == 2 && q == 16) || (p == 4 && q == 8) || (p == 8 && q == 4) || (p == 16 && q == 2)
    ensures acc * q % 32 == acc % p * q
  {
    if p == 2 {
      MovedUp4(acc);
    } else if p == 4 {
      MovedUp3(acc);
    } else if p == 8 {
      MovedUp2(acc);
    } else {
      MovedUp1(acc);
    }
  }

  lemma Shifted(acc: nat, bits: nat)
    requires 0 < bits < 5
    ensures Wrap(acc * Pow2(5 - bits)) % 32 == acc % Pow2(bits) * Pow2(5 - bits)
  {
    SmallPowers(bits);
    SmallPowers(5 - bits);
    hide Pow2;
    Nested(acc * Pow2(5 - bits));
    MovedUp(acc, Pow2(bits), Pow2(5 - bits));
  }

  // ----- Words -----

  /** A text in words of `w` characters. */
  function Spaced(x: string, w: nat): string
    requires w > 0
    decreases |x|
  {
    if |x| <= w then x else x[..w] + " " + Spaced(x[w..], w)
  }

  /** The rest of such a text when `used` characters of the current word are written. */
  function SpacedFrom(used: nat, x: string, w: nat): string
    requires used <= w && w > 0
  {
    if |x| <= w - used then x else x[..w - used] + " " + Spaced(x[w - used..], w)
  }

  /** How many units of `unit` characters the encoders put in a word. */
  function Loops(word: nat, unit: nat): nat
    requires unit > 0
  {
    var whole := (word + unit - 1) / unit;
    if whole <= 2 then 1 else whole - 1
  }

  lemma DigWords()
    ensures 2 * Loops(WORD, 2) == 56 && 4 * Loops(WORD, 4) == 56
  {
  }

  /** The condition of the loops that a word is full. */
  lemma FullWord(loops: nat, word: nat, unit: nat)
    requires unit == 2 || unit == 4
    ensures loops >= 1 ==> ((loops + 1) * unit >= word <==> loops >= Loops(word, unit))
  {
  }

  /** One more unit in the current word, and the space behind it if the word is then full. */
  lemma SpacedStep(x: string, rest: string, used: nat, w: nat)
    requires x != "" && used + |x| <= w
    ensures SpacedFrom(used, x + rest, w)
            == x + if used + |x| < w || rest == "" then SpacedFrom(used + |x|, rest, w)
                   else " " + SpacedFrom(0, rest, w)
  {
    hide Spaced;
    var left, all := w - used, x + rest;
    if |all| > left {
      var k := left - |x|;
      assert all[..left] == x + rest[..k] && all[left..] == rest[k..];
      assert SpacedFrom(used, all, w) == x + rest[..k] + " " + Spaced(rest[k..], w);
      if k > 0 {
        assert SpacedFrom(used + |x|, rest, w) == rest[..k] + " " + Spaced(rest[k..], w);
        assert x + (rest[..k] + " " + Spaced(rest[k..], w)) == x + rest[..k] + " " + Spaced(rest[k..], w);
      } else {
        assert x + rest[..0] == x && rest[0..] == rest;
        StartOfWord(rest, w);
        assert x + (" " + Spaced(rest, w)) == x + " " + Spaced(rest, w);
      }
    }
  }

  lemma StartOfWord(x: string, w: nat)
    requires w > 0
    ensures SpacedFrom(0, x, w) == Spaced(x, w)
  {
  }

  // ----- Hexadecimal -----

  lemma HexByte(b: byte, rest: seq<byte>)
    ensures Digits([b] + rest, 4) == [Spell(4, b / 16), Spell(4, b % 16)] + Digits(rest, 4)
  {
    hide Bits, Spell, Spelled;
    var data := [b] + rest;
    assert BitsOf(data) == Bits(b, 8) + BitsOf(rest) by { assert data[1..] == rest; }
    hide BitsOf;
    SmallPowers(4);
    SmallPowers(0);
    SpelledFirst(b, 8, BitsOf(rest), 4);
    SpelledFirst(b, 4, BitsOf(rest), 4);
    NoBits(b);
    assert [] + BitsOf(rest) == BitsOf(rest);
  }

  /** `hex`. */
  method Hex(data: seq<byte>, word: nat) returns (out: string)
    ensures out == Spaced(Digits(data, 4), 2 * Loops(word, 2))
  {
    hide Digits, Spell, Spaced, SpacedFrom, Loops;
    out := "";
    ghost var most := Loops(word, 2);
    ghost var rest := data;
    var loops: nat, i := 0, 0;
    OneLoop(word, 2);
    StartOfWord(Digits(data, 4), 2 * most);
    while i < |data|
      invariant 0 <= i <= |data| && rest == data[i..] && 0 < most && (loops < most || rest == []) && loops <= most
      invariant Spaced(Digits(data, 4), 2 * most) == out + SpacedFrom(2 * loops, Digits(rest, 4), 2 * most)
    {
      var b := data[i];
      var pair := [Spell(4, b / 16), Spell(4, b % 16)];
      assert rest == [b] + rest[1..];
      HexByte(b, rest[1..]);
      SpacedStep(pair, Digits(rest[1..], 4), 2 * loops, 2 * most);
      NoDigits(rest[1..], 4);
      FullWord(loops + 1, word, 2);
      out := out + pair;
      loops := loops + 1;
      rest := rest[1..];
      if i + 1 < |data| && (loops + 1) * 2 >= word {
        loops := 0;
        out := out + " ";
      }
      i := i + 1;
    }
    NoDigits(rest, 4);
    NothingLeft(2 * loops, 2 * most);
  }

  lemma OneLoop(word: nat, unit: nat)
    requires unit == 2 || unit == 4
    ensures Loops(word, unit) >= 1
  {
  }

  lemma NoDigits(data: seq<byte>, w: nat)
    requires Width(w)
    ensures Digits(data, w) == "" <==> data == []
  {
  }

  lemma NothingLeft(used: nat, w: nat)
    requires used <= w && w > 0
    ensures SpacedFrom(used, "", w) == ""
  {
  }

  // ----- base64 -----

  /** The digits of the data, padded to whole quartets. */
  function Padded(data: seq<byte>): string {
    Digits(data, 6) + seq((3 - |data| % 3) % 3, _ => '=')
  }

  /** The digits before the padding. */
  function Unpadded(s: string): string {
    Before(s, '=')
  }

  function Packed(a: byte, b: byte, c: byte): nat {
    a * 65536 + b * 256 + c
  }

  lemma OneByte(b: byte, rest: seq<byte>)
    ensures BitsOf([b] + rest) == Bits(b, 8) + BitsOf(rest)
  {
    assert ([b] + rest)[1..] == rest;
  }

  lemma Three(a: byte, b: byte, c: byte, rest: seq<byte>)
    ensures BitsOf([a, b, c] + rest) == Bits(Packed(a, b, c), 24) + BitsOf(rest)
  {
    hide Bits, BitsOf;
    assert [a, b, c] + rest == [a] + ([b] + ([c] + rest));
    OneByte(a, [b] + ([c] + rest));
    OneByte(b, [c] + rest);
    OneByte(c, rest);
    ByteBehind(a, 8, b);
    ByteBehind(a * 256 + b, 16, c);
    assert Bits(a, 8) + (Bits(b, 8) + (Bits(c, 8) + BitsOf(rest)))
        == Bits(a, 8) + Bits(b, 8) + Bits(c, 8) + BitsOf(rest);
  }

  /** The six bits of `n` above the lowest `shift`. */
  function Sextet(n: nat, shift: nat): (r: nat)
    ensures r < 64
  {
    n / Pow2(shift) % 64
  }

  function Quartet(n: nat): (r: string)
    ensures |r| == 4
  {
    [Spell(6, Sextet(n, 18)), Spell(6, Sextet(n, 12)), Spell(6, Sextet(n, 6)), Spell(6, Sextet(n, 0))]
  }

  lemma QuartetSpelled(n: nat, rest: seq<bool>)
    ensures Spelled(Bits(n, 24) + rest, 6) == Quartet(n) + Spelled(rest, 6)
  {
    hide Bits, Spell, Spelled;
    SmallPowers(6);
    SpelledFirst(n, 24, rest, 6);
    SpelledFirst(n, 18, rest, 6);
    SpelledFirst(n, 12, rest, 6);
    SpelledFirst(n, 6, rest, 6);
    NoBits(n);
    assert [] + rest == rest;
  }

  lemma PaddedThree(a: byte, b: byte, c: byte, rest: seq<byte>)
    ensures Padded([a, b, c] + rest) == Quartet(Packed(a, b, c)) + Padded(rest)
  {
    hide Packed, Bits, Spelled, BitsOf, Quartet;
    Three(a, b, c, rest);
    QuartetSpelled(Packed(a, b, c), BitsOf(rest));
    var data := [a, b, c] + rest;
    assert |data| % 3 == |rest| % 3;
    var pad: string := seq((3 - |rest| % 3) % 3, _ => '=');
    assert Padded(rest) == Digits(rest, 6) + pad;
    assert Quartet(Packed(a, b, c)) + (Digits(rest, 6) + pad)
        == Quartet(Packed(a, b, c)) + Digits(rest, 6) + pad;
  }

  lemma PaddedOne(a: byte)
    ensures Padded([a]) == [Spell(6, a / 4), Spell(6, a % 4 * 16), '=', '=']
  {
    hide Bits, Spell, Spelled;
    assert BitsOf([a]) == Bits(a, 8) + [] by { assert [a][1..] == []; }
    SmallPowers(2);
    SmallPowers(4);
    SmallPowers(6);
    SpelledFirst(a, 8, [], 6);
    SpelledLast(a, 2, 6);
    assert Bits(a, 2) + [] == Bits(a, 2);
    var pad: string := seq(2, _ => '=');
    assert pad == ['=', '='];
  }

  lemma PaddedTwo(a: byte, b: byte)
    ensures Padded([a, b]) == [Spell(6, a / 4), Spell(6, a % 4 * 16 + b / 16), Spell(6, b % 16 * 4), '=']
  {
    hide Bits, Spell, Spelled;
    assert BitsOf([a, b]) == Bits(a, 8) + Bits(b, 8) by {
      assert [a, b][1..][1..] == [] && [a, b][1..][0] == b;
      assert Bits(a, 8) + (Bits(b, 8) + []) == Bits(a, 8) + Bits(b, 8);
    }
    var n := a * 256 + b;
    ByteBehind(a, 8, b);
    PowersForTwo();
    SpelledFirst(n, 16, [], 6);
    SpelledFirst(n, 10, [], 6);
    SpelledLast(n, 4, 6);
    assert Bits(n, 16) + [] == Bits(n, 16) && Bits(n, 4) + [] == Bits(n, 4);
    Sextets(a, b);
    var pad: string := seq(1, _ => '=');
    assert pad == ['='];
  }

  lemma PowersForTwo()
    ensures Pow2(10) == 1024 && Pow2(4) == 16 && Pow2(6) == 64 && Pow2(2) == 4
  {
    SmallPowers(6);
    SmallPowers(4);
    SmallPowers(2);
    PowerSum(6, 4);
  }

  lemma Sextets(a: byte, b: byte)
    ensures var n := a * 256 + b;
            n / 1024 % 64 == a / 4 && n / 16 % 64 == a % 4 * 16 + b / 16 && n % 16 * 4 == b % 16 * 4
  {
    var n := a * 256 + b;
    Parts1024(a / 4, a % 4 * 256 + b);
    Parts16(a * 16 + b / 16, b % 16);
    Parts64(a / 4, a % 4 * 16 + b / 16);
    assert n == 1024 * (a / 4) + (a % 4 * 256 + b);
    assert n == 16 * (a * 16 + b / 16) + b % 16;
    assert a * 16 + b / 16 == 64 * (a / 4) + (a % 4 * 16 + b / 16);
  }

  lemma Parts1024(q: nat, r: nat)
    requires r < 1024
    ensures (1024 * q + r) / 1024 == q
  {
  }

  lemma Parts64(q: nat, r: nat)
    requires r < 64
    ensures (64 * q + r) % 64 == r
  {
  }

  lemma Parts16(q: nat, r: nat)
    requires r < 16
    ensures (16 * q + r) / 16 == q && (16 * q + r) % 16 == r
  {
  }

  lemma PaddedEmpty(data: seq<byte>)
    ensures Padded(data) == "" <==> data == []
  {
    NoDigits(data, 6);
  }

  /** `base64`, for which no splitting is a word of any length. */
  method Base64(data: seq<byte>, split: Option<nat>) returns (out: string)
    ensures out == Spaced(Padded(data), 4 * Loops(AtLeastFour(split), 4))
  {
    hide Padded, Spell, Spaced, SpacedFrom, Loops, Quartet;
    var word := AtLeastFour(split);
    ghost var most := Loops(word, 4);
    out := "";
    var loops: nat, rest := 0, data;
    OneLoop(word, 4);
    StartOfWord(Padded(data), 4 * most);
    while |rest| > 2
      invariant 0 < most && (loops < most || rest == []) && loops <= most
      invariant Spaced(Padded(data), 4 * most) == out + SpacedFrom(4 * loops, Padded(rest), 4 * most)
      decreases |rest|
    {
      var n := Packed(rest[0], rest[1], rest[2]);
      PaddedThree(rest[0], rest[1], rest[2], rest[3..]);
      assert rest == [rest[0], rest[1], rest[2]] + rest[3..];
      SpacedStep(Quartet(n), Padded(rest[3..]), 4 * loops, 4 * most);
      PaddedEmpty(rest[3..]);
      FullWord(loops + 1, word, 4);
      out := out + Quartet(n);
      rest := rest[3..];
      loops := loops + 1;
      if rest != [] && (loops + 1) * 4 >= word {
        loops := 0;
        out := out + " ";
      }
    }
    if |rest| == 1 {
      PaddedOne(rest[0]);
      assert rest == [rest[0]];
      LastQuartet(Padded(rest), 4 * loops, 4 * most);
      out := out + [Spell(6, rest[0] / 4), Spell(6, rest[0] % 4 * 16), '=', '='];
    } else if |rest| == 2 {
      PaddedTwo(rest[0], rest[1]);
      assert rest == [rest[0], rest[1]];
      LastQuartet(Padded(rest), 4 * loops, 4 * most);
      out := out + [Spell(6, rest[0] / 4), Spell(6, rest[0] % 4 * 16 + rest[1] / 16), Spell(6, rest[1] % 16 * 4), '='];
    } else {
      PaddedEmpty(rest);
      NothingLeft(4 * loops, 4 * most);
    }
  }

  function AtLeastFour(split: Option<nat>): nat {
    var word := match split case None => USIZE_MAX case Some(w) => w;
    if word < 4 then 4 else word
  }

  lemma LastQuartet(x: string, used: nat, w: nat)
    requires |x| == 4 && used + 4 <= w
    ensures SpacedFrom(used, x, w) == x
  {
  }

  // ----- What is printed can be read back -----

  function Together(words: seq<string>): string {
    if words == [] then "" else words[0] + Together(words[1..])
  }

  /** Words of exactly `w` characters, except that the last may be shorter but not empty. */
  predicate InWords(words: seq<string>, w: nat) {
    && words != [] && 0 < |words[|words| - 1]| <= w
    && forall k :: 0 <= k < |words| - 1 ==> |words[k]| == w
  }

  lemma {:induction false} SpacedWords(x: string, w: nat)
    requires w > 0 && x != "" && ' ' !in x
    ensures InWords(Split(Spaced(x, w), ' '), w) && Together(Split(Spaced(x, w), ' ')) == x
    decreases |x|
  {
    hide Split;
    if |x| <= w {
      OneWord(x);
    } else {
      var first, rest := x[..w], Spaced(x[w..], w);
      SplitFirst(first, rest);
      SpacedWords(x[w..], w);
      FirstWord(first, Split(rest, ' '), w);
      assert first + x[w..] == x;
    }
  }

  lemma OneWord(x: string)
    requires ' ' !in x
    ensures Split(x, ' ') == [x] && Together([x]) == x
  {
    IndexUnique(x, ' ', |x|);
    assert [x][1..] == [];
    assert x + "" == x;
  }

  lemma SplitFirst(first: string, rest: string)
    requires ' ' !in first
    ensures Split(first + " " + rest, ' ') == [first] + Split(rest, ' ')
  {
    var s := first + " " + rest;
    IndexUnique(s, ' ', |first|);
    assert s[..|first|] == first && s[|first| + 1..] == rest;
  }

  lemma FirstWord(first: string, words: seq<string>, w: nat)
    requires |first| == w && InWords(words, w)
    ensures InWords([first] + words, w) && Together([first] + words) == first + Together(words)
  {
    var all := [first] + words;
    assert all[1..] == words;
    forall k | 0 <= k < |all| - 1 ensures |all[k]| == w {
      if k > 0 {
        assert all[k] == words[k - 1];
      }
    }
  }

  lemma {:induction false} PlainDigits(w: nat, gs: seq<nat>)
    requires AllSmall(gs)
    ensures ' ' !in SpellAll(w, gs) && '=' !in SpellAll(w, gs)
  {
    if gs != [] {
      PlainDigits(w, gs[1..]);
    }
  }

  lemma PaddedPlain(data: seq<byte>)
    ensures ' ' !in Padded(data) && Before(Padded(data), '=') == Digits(data, 6) && |Padded(data)| % 4 == 0
  {
    hide SpellAll, Groups, BitsOf;
    GroupsSmall(BitsOf(data), 6);
    PlainDigits(6, Groups(BitsOf(data), 6));
    IndexUnique(Padded(data), '=', |Digits(data, 6)|);
    GroupCount(BitsOf(data), 6);
    Sixths(|data|);
  }

  lemma {:induction false} GroupCount(bits: seq<bool>, w: nat)
    requires w > 0
    ensures w * (|Groups(bits, w)| - 1) < |bits| <= w * |Groups(bits, w)| || bits == []
    ensures bits == [] ==> Groups(bits, w) == []
    decreases |bits|
  {
    if |bits| > w {
      GroupCount(bits[w..], w);
      Widths(w, |Groups(bits, w)|);
      Widths(w, |Groups(bits, w)| - 1);
    }
  }

  lemma Sixths(n: nat)
    ensures forall g: nat :: (n > 0 && 6 * (g - 1) < 8 * n <= 6 * g) || (n == 0 && g == 0)
              ==> (g + (3 - n % 3) % 3) % 4 == 0
  {
    forall g: nat | (n > 0 && 6 * (g - 1) < 8 * n <= 6 * g) || (n == 0 && g == 0)
      ensures (g + (3 - n % 3) % 3) % 4 == 0
    {
      var q, r := n / 3, n % 3;
      assert n == 3 * q + r;
      assert g == 4 * q + (if r == 0 then 0 else r + 1);
    }
  }

  /** At dig's width every word of base64 but the last has exactly 56 characters, and the data
      comes back once spaces and padding are taken off. */
  lemma Base64ReadsBack(data: seq<byte>)
    requires data != []
    ensures var words := Split(Spaced(Padded(data), 4 * Loops(AtLeastFour(Some(WORD)), 4)), ' ');
            && InWords(words, 56)
            && |Together(words)| % 4 == 0
            && Decode(Unpadded(Together(words)), 6) == Some(data)
  {
    hide Spaced, Padded, Digits, Decode;
    DigWords();
    PaddedPlain(data);
    PaddedEmpty(data);
    SpacedWords(Padded(data), 56);
    DigitsDecode(data, 6);
  }

  /** Of any width, base64 reads back; without splitting it is one word. */
  lemma Base64AnyWidth(data: seq<byte>, split: Option<nat>)
    requires data != []
    ensures var w := 4 * Loops(AtLeastFour(split), 4);
            var words := Split(Spaced(Padded(data), w), ' ');
            && InWords(words, w) && Decode(Unpadded(Together(words)), 6) == Some(data)
            && (|Padded(data)| <= w ==> words == [Padded(data)])
  {
    hide Padded, Digits, Decode, Loops;
    OneLoop(AtLeastFour(split), 4);
    var w := 4 * Loops(AtLeastFour(split), 4);
    PaddedPlain(data);
    PaddedEmpty(data);
    SpacedWords(Padded(data), w);
    DigitsDecode(data, 6);
    if |Padded(data)| <= w {
      IndexUnique(Padded(data), ' ', |Padded(data)|);
    }
  }

  /** At dig's width every word of hexadecimal but the last has exactly 56 digits. */
  lemma HexReadsBack(data: seq<byte>)
    requires data != []
    ensures var words := Split(Spaced(Digits(data, 4), 2 * Loops(WORD, 2)), ' ');
            && InWords(words, 56) && Decode(Together(words), 4) == Some(data)
  {
    hide Spaced, Decode, SpellAll, Groups, BitsOf;
    DigWords();
    GroupsSmall(BitsOf(data), 4);
    PlainDigits(4, Groups(BitsOf(data), 4));
    NoDigits(data, 4);
    SpacedWords(Digits(data, 4), 56);
    DigitsDecode(data, 4);
  }
}
