/**
 Type bitmaps (section 4.1.2 of RFC 4034) and 32-bit times in packages/wasi-dig/src/present.rs.
 */
module DnsTypes {
  import opened Bytes
  import opened BitStrings

  const WINDOW := 256

  // ----- What the decoder lists -----

  /** The places of the set bits, counted from `base`. */
  function SetBits(bits: seq<bool>, base: nat): seq<nat> {
    if bits == [] then [] else (if bits[0] then [base] else []) + SetBits(bits[1..], base + 1)
  }

  /** The type codes a bitmap lists, or nothing if it is malformed. */
  function Types(rd: seq<byte>): Option<seq<nat>>
    decreases |rd|
  {
    if rd == [] then Some([])
    else if |rd| < 2 || rd[1] == 0 || rd[1] > 32 || |rd| < 2 + rd[1] then None
    else
      var len := rd[1];
      match Types(rd[2 + len..])
      case None => None
      case Some(more) => Some(SetBits(BitsOf(rd[2..2 + len]), WINDOW * rd[0]) + more)
  }

  lemma {:induction false} BitAt(v: nat, n: nat, k: nat)
    requires k < n
    ensures Bits(v, n)[k] <==> v / Pow2(n - 1 - k) % 2 == 1
    decreases n
  {
    if k < n - 1 {
      BitAt(v / 2, n - 1, k);
      Halving(v, n - 2 - k);
    }
  }

  lemma Halving(v: nat, m: nat)
    ensures v / 2 / Pow2(m) == v / Pow2(m + 1)
  {
    var p := Pow2(m);
    var q, r := v / 2 / p, v / 2 % p;
    assert v / 2 == p * q + r;
    Twice(q, p);
    Remainder(v, 2 * p, q, 2 * r + v % 2);
    Quotient(v, 2 * p, q, 2 * r + v % 2);
  }

  lemma Quotient(v: nat, p: nat, q: nat, r: nat)
    requires r < p && v == q * p + r
    ensures v / p == q
  {
    var q', r' := v / p, v % p;
    assert v == p * q' + r';
    if q' < q {
      Apart(p, q', q);
    } else if q < q' {
      Apart(p, q, q');
    }
  }

  /** The test of one bit, `byte & (0x80 >> k) != 0`. */
  predicate Set(b: byte, k: nat)
    requires k < 8
  {
    b / Pow2(7 - k) % 2 == 1
  }

  lemma SetIsBit(b: byte, k: nat)
    requires k < 8
    ensures Set(b, k) <==> Bits(b, 8)[k]
  {
    BitAt(b, 8, k);
  }

  // ----- The loops -----

  lemma SetBitsAppend(types: seq<nat>, bits: seq<bool>, base: nat)
    requires bits != []
    ensures types + SetBits(bits, base)
            == (if bits[0] then types + [base] else types) + SetBits(bits[1..], base + 1)
  {
    var more := SetBits(bits[1..], base + 1);
    assert SetBits(bits, base) == (if bits[0] then [base] else []) + more;
    hide SetBits;
    assert types + ([base] + more) == types + [base] + more;
    assert [] + more == more;
  }

  /** The inner loop, over the bits of one byte. */
  method ByteTypes(b: byte, base: nat, types: seq<nat>) returns (out: seq<nat>)
    ensures out == types + SetBits(Bits(b, 8), base)
  {
    hide Set, Bits, SetBits;
    out := types;
    ghost var rest := Bits(b, 8);
    for k := 0 to 8
      invariant rest == Bits(b, 8)[k..]
      invariant out + SetBits(rest, base + k) == types + SetBits(Bits(b, 8), base)
    {
      SetIsBit(b, k);
      SetBitsAppend(out, rest, base + k);
      if Set(b, k) {
        out := out + [base + k];
      }
      rest := rest[1..];
    }
    NoSetBits(base + 8);
    assert out + [] == out;
  }

  lemma NoSetBits(base: nat)
    ensures SetBits([], base) == []
  {
  }

  lemma {:induction false} SetBitsSplit(a: seq<bool>, b: seq<bool>, base: nat)
    ensures SetBits(a + b, base) == SetBits(a, base) + SetBits(b, base + |a|)
  {
    if a == [] {
      assert a + b == b;
    } else {
      assert (a + b)[1..] == a[1..] + b;
      SetBitsSplit(a[1..], b, base + 1);
    }
  }

  /** The loop over the bytes of one window. */
  method WindowTypes(bits: seq<byte>, base: nat, types: seq<nat>) returns (out: seq<nat>)
    ensures out == types + SetBits(BitsOf(bits), base)
  {
    hide SetBits, BitsOf;
    out := types;
    var j := 0;
    ghost var rest := bits;
    while j < |bits|
      invariant 0 <= j <= |bits| && rest == bits[j..]
      invariant out + SetBits(BitsOf(rest), base + 8 * j) == types + SetBits(BitsOf(bits), base)
    {
      OneByteMore(out, rest, base + 8 * j);
      out := ByteTypes(bits[j], base + 8 * j, out);
      rest := rest[1..];
      j := j + 1;
    }
    NoBits();
    NoSetBits(base + 8 * j);
    assert out + [] == out;
  }

  lemma NoBits()
    ensures BitsOf([]) == []
  {
  }

  lemma OneByteMore(out: seq<nat>, rest: seq<byte>, base: nat)
    requires rest != []
    ensures out + SetBits(BitsOf(rest), base)
            == out + SetBits(Bits(rest[0], 8), base) + SetBits(BitsOf(rest[1..]), base + 8)
  {
    SetBitsSplit(Bits(rest[0], 8), BitsOf(rest[1..]), base);
  }

  /** `typemap`, up to the mnemonics of the types. */
  method TypeMap(rd: seq<byte>) returns (r: Option<seq<nat>>)
    ensures r == Types(rd)
  {
    hide SetBits, BitsOf, Types;
    var types: seq<nat> := [];
    var i: nat := 0;
    ghost var rest := rd;
    PrependNothing(Types(rd));
    while i < |rd|
      invariant i <= |rd| && rest == rd[i..]
      invariant Types(rd) == Prepend(types, Types(rest))
    {
      var window: nat := rd[i];
      TypesEnd(types, rest);
      assert rest[0] == window;
      if |rd| <= i + 1 {
        return None;
      }
      var len: nat := rd[i + 1];
      assert rest[1] == len;
      if len == 0 || len > 32 || |rd| < i + 2 + len {
        return None;
      }
      Resliced(rd, i, i + 2, i + 2 + len);
      WindowStep(types, rest);
      types := WindowTypes(rd[i + 2..i + 2 + len], 256 * window, types);
      rest := rest[2 + len..];
      i := i + 2 + len;
    }
    TypesEnd(types, rest);
    return Some(types);
  }

  /** Where the loop stops. */
  lemma TypesEnd(types: seq<nat>, rest: seq<byte>)
    ensures rest == [] ==> Prepend(types, Types(rest)) == Some(types)
    ensures rest != [] && (|rest| < 2 || rest[1] == 0 || rest[1] > 32 || |rest| < 2 + rest[1]) ==>
              Prepend(types, Types(rest)) == None
  {
    assert types + [] == types;
  }

  lemma WindowStep(types: seq<nat>, rest: seq<byte>)
    requires |rest| >= 2 && 0 < rest[1] <= 32 && 2 + rest[1] <= |rest|
    ensures var len := rest[1];
            Prepend(types, Types(rest))
            == Prepend(types + SetBits(BitsOf(rest[2..2 + len]), WINDOW * rest[0]), Types(rest[2 + len..]))
  {
    hide SetBits, BitsOf;
    var here, r := SetBits(BitsOf(rest[2..2 + rest[1]]), WINDOW * rest[0]), Types(rest[2 + rest[1]..]);
    if r.Some? {
      assert types + (here + r.value) == types + here + r.value;
    }
  }

  /** The windows of a bitmap: each a number and 1 to 32 bytes. */
  function WindowBytes(ws: seq<(byte, seq<byte>)>): seq<byte>
    requires forall k :: 0 <= k < |ws| ==> 1 <= |ws[k].1| <= 32
  {
    if ws == [] then [] else [ws[0].0, |ws[0].1|] + ws[0].1 + WindowBytes(ws[1..])
  }

  ghost predicate WindowsAre(rd: seq<byte>, ws: seq<(byte, seq<byte>)>) {
    (forall k :: 0 <= k < |ws| ==> 1 <= |ws[k].1| <= 32) && rd == WindowBytes(ws)
  }

  /** A bitmap is read exactly if it consists of such windows. */
  lemma {:induction false} TypesExact(rd: seq<byte>)
    ensures Types(rd).Some? <==> exists ws :: WindowsAre(rd, ws)
    decreases |rd|
  {
    hide SetBits, BitsOf;
    if rd == [] {
      assert WindowsAre(rd, []);
    } else if |rd| >= 2 && 1 <= rd[1] <= 32 && |rd| >= 2 + rd[1] {
      hide WindowsAre;
      var rest := rd[2 + rd[1]..];
      TypesExact(rest);
      if ws :| WindowsAre(rest, ws) {
        MoreWindows(rd, ws);
      }
      if ws :| WindowsAre(rd, ws) {
        FewerWindows(rd, ws);
      }
    } else {
      forall ws ensures !WindowsAre(rd, ws) {
        NoWindow(rd, ws);
      }
    }
  }

  lemma MoreWindows(rd: seq<byte>, ws: seq<(byte, seq<byte>)>)
    requires |rd| >= 2 && 1 <= rd[1] <= 32 && |rd| >= 2 + rd[1] && WindowsAre(rd[2 + rd[1]..], ws)
    ensures WindowsAre(rd, [(rd[0], rd[2..2 + rd[1]])] + ws)
  {
    var all := [(rd[0], rd[2..2 + rd[1]])] + ws;
    assert all[1..] == ws;
    assert rd == [rd[0], rd[1]] + rd[2..2 + rd[1]] + rd[2 + rd[1]..];
  }

  lemma FirstWindow(rd: seq<byte>, ws: seq<(byte, seq<byte>)>)
    requires rd != [] && WindowsAre(rd, ws)
    ensures ws != [] && |rd| >= 2 && rd[1] == |ws[0].1| && 1 <= rd[1] <= 32 && |rd| >= 2 + rd[1]
  {
  }

  lemma NoWindow(rd: seq<byte>, ws: seq<(byte, seq<byte>)>)
    requires rd != [] && !(|rd| >= 2 && 1 <= rd[1] <= 32 && |rd| >= 2 + rd[1])
    ensures !WindowsAre(rd, ws)
  {
  }

  lemma FewerWindows(rd: seq<byte>, ws: seq<(byte, seq<byte>)>)
    requires rd != [] && WindowsAre(rd, ws)
    ensures |rd| >= 2 && |rd| >= 2 + rd[1] && WindowsAre(rd[2 + rd[1]..], ws[1..])
  {
    FirstWindow(rd, ws);
    assert rd[2 + rd[1]..] == WindowBytes(ws[1..]);
  }

  // ----- Encoding a set of types -----

  /** The bits of a window up to the given length: which types from `base` on are in the set. */
  function Membership(s: set<nat>, base: nat, n: nat): (r: seq<bool>)
    ensures |r| == n
  {
    seq(n, i requires 0 <= i < n => base + i in s)
  }

  /** The octets that a window needs: none behind the last type, of which there may be none. */
  function Octets(s: set<nat>, base: nat, most: nat): (k: nat)
    ensures k <= most
    ensures forall t :: base + 8 * k <= t < base + 8 * most ==> t !in s
  {
    if most == 0 then 0
    else if exists t :: base + 8 * (most - 1) <= t < base + 8 * most && t in s then most
    else Octets(s, base, most - 1)
  }

  function Window(s: set<nat>, w: byte): seq<byte> {
    var k := Octets(s, WINDOW * w, 32);
    if k == 0 then [] else [w, k] + Pack(Membership(s, WINDOW * w, 8 * k))
  }

  /** The windows from `w` on, each with at least one type, in ascending order. */
  function Windows(s: set<nat>, w: nat): seq<byte>
    decreases 256 - w
  {
    if w >= 256 then [] else Window(s, w) + Windows(s, w + 1)
  }

  /** Exactly the members of the set from `low` to below `high`, in ascending order. */
  ghost predicate Lists(types: seq<nat>, s: set<nat>, low: nat, high: nat) {
    && (forall i, k :: 0 <= i < k < |types| ==> types[i] < types[k])
    && (forall t :: t in types <==> t in s && low <= t < high)
  }

  lemma ListsAppend(a: seq<nat>, b: seq<nat>, s: set<nat>, low: nat, mid: nat, high: nat)
    requires low <= mid <= high && Lists(a, s, low, mid) && Lists(b, s, mid, high)
    ensures Lists(a + b, s, low, high)
  {
    var all := a + b;
    forall i, k | 0 <= i < k < |all| ensures all[i] < all[k] {
      if i < |a| <= k {
        assert all[i] in a && all[k] in b;
      }
    }
  }

  lemma {:induction false} SetBitsLists(s: set<nat>, base: nat, n: nat)
    ensures Lists(SetBits(Membership(s, base, n), base), s, base, base + n)
    decreases n
  {
    var bits := Membership(s, base, n);
    if n > 0 {
      assert bits[1..] == Membership(s, base + 1, n - 1);
      SetBitsLists(s, base + 1, n - 1);
      var first: seq<nat> := if base in s then [base] else [];
      assert Lists(first, s, base, base + 1);
      ListsAppend(first, SetBits(bits[1..], base + 1), s, base, base + 1, base + n);
    }
  }

  /** Nothing further on in a window. */
  lemma ListsFurther(types: seq<nat>, s: set<nat>, low: nat, mid: nat, high: nat)
    requires low <= mid <= high && Lists(types, s, low, mid) && forall t :: mid <= t < high ==> t !in s
    ensures Lists(types, s, low, high)
  {
  }

  lemma WindowLists(s: set<nat>, w: byte)
    ensures var base, k := WINDOW * w, Octets(s, WINDOW * w, 32);
            Lists(SetBits(Membership(s, base, 8 * k), base), s, base, base + WINDOW)
  {
    var base, k := WINDOW * w, Octets(s, WINDOW * w, 32);
    SetBitsLists(s, base, 8 * k);
    ListsFurther(SetBits(Membership(s, base, 8 * k), base), s, base, base + 8 * k, base + WINDOW);
  }

  lemma WindowRead(s: set<nat>, w: byte, rest: seq<byte>)
    requires Types(rest).Some?
    ensures var base, k := WINDOW * w, Octets(s, WINDOW * w, 32);
            Types(Window(s, w) + rest) == Some(SetBits(Membership(s, base, 8 * k), base) + Types(rest).value)
  {
    hide SetBits, Membership, Octets;
    var base, k := WINDOW * w, Octets(s, WINDOW * w, 32);
    var bits := Membership(s, base, 8 * k);
    if k == 0 {
      assert bits == [];
      NoSetBits(base);
      assert [] + rest == rest && [] + Types(rest).value == Types(rest).value;
    } else {
      BitsOfPack(bits);
      var octets := Pack(bits);
      var rd := Window(s, w) + rest;
      assert rd == [w, k] + octets + rest;
      assert rd[2..2 + k] == octets && rd[2 + k..] == rest;
    }
  }

  /** The bitmap of any set of 16-bit types is well formed and lists exactly that set, in
      ascending order. */
  lemma {:induction false} TypesOfWindows(s: set<nat>, w: nat)
    requires w <= 256
    ensures Types(Windows(s, w)).Some?
    ensures Lists(Types(Windows(s, w)).value, s, WINDOW * w, WINDOW * 256)
    decreases 256 - w
  {
    hide Types, Window, SetBits, Membership, Lists;
    if w == 256 {
      NoTypes(s, WINDOW * 256);
    } else {
      TypesOfWindows(s, w + 1);
      WindowRead(s, w, Windows(s, w + 1));
      WindowLists(s, w);
      var base, k := WINDOW * w, Octets(s, WINDOW * w, 32);
      ListsAppend(SetBits(Membership(s, base, 8 * k), base), Types(Windows(s, w + 1)).value, s,
                  base, base + WINDOW, WINDOW * 256);
    }
  }

  lemma NoTypes(s: set<nat>, at: nat)
    ensures Types([]) == Some([]) && Lists([], s, at, at)
  {
  }

  lemma BitmapReadsBack(s: set<nat>)
    requires forall t :: t in s ==> t < 65536
    ensures var r := Types(Windows(s, 0));
            && r.Some? && (forall i, k :: 0 <= i < k < |r.value| ==> r.value[i] < r.value[k])
            && forall t :: t in r.value <==> t in s
  {
    hide Types, Windows;
    TypesOfWindows(s, 0);
  }

  // ----- 32-bit times -----

  const HALF := 0x8000_0000

  /** `time64_from32`: the wrapped difference, read as a signed number. */
  function Time64From32(value: nat, now: nat): int
    requires value < 2 * HALF && now < 2 * HALF
  {
    var d := (value - now) % (2 * HALF);
    now + if d < HALF then d else d - 2 * HALF
  }

  /** It is the one time within half a wrap of now that the 32 bits stand for. */
  lemma TimeIsNearest(value: nat, now: nat, t: int)
    requires value < 2 * HALF && now < 2 * HALF
    ensures t == Time64From32(value, now) <==> t % (2 * HALF) == value && -HALF <= t - now < HALF
  {
    var u := Time64From32(value, now);
    var d := (value - now) % (2 * HALF);
    assert d == value - now || d == value - now + 2 * HALF;
    assert u == value - 2 * HALF || u == value || u == value + 2 * HALF;
    if t % (2 * HALF) == value && -HALF <= t - now < HALF {
      var q := t / (2 * HALF);
      assert t == 2 * HALF * q + value;
      assert -2 < q < 2;
    }
  }
}
