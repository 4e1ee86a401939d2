/** Numbers and bytes as strings of bits, the most significant first. */
module BitStrings {
  import opened Bytes

  function Pow2(n: nat): (r: nat)
    ensures r > 0
  {
    if n == 0 then 1 else 2 * Pow2(n - 1)
  }

  /** The low `n` bits of a number. */
  function Bits(v: nat, n: nat): (r: seq<bool>)
    ensures |r| == n
  {
    if n == 0 then [] else Bits(v / 2, n - 1) + [v % 2 == 1]
  }

  function Value(bits: seq<bool>): (v: nat)
    ensures v < Pow2(|bits|)
  {
    if bits == [] then 0
    else 2 * Value(bits[..|bits| - 1]) + if bits[|bits| - 1] then 1 else 0
  }

  lemma Half(high: nat, low: bool)
    ensures var v := 2 * high + if low then 1 else 0;
            v / 2 == high && (v % 2 == 1 <==> low)
  {
  }

  lemma {:induction false} BitsOfValue(bits: seq<bool>)
    ensures Bits(Value(bits), |bits|) == bits
  {
    if bits != [] {
      var front, last := bits[..|bits| - 1], bits[|bits| - 1];
      Half(Value(front), last);
      BitsOfValue(front);
      assert bits == front + [last];
    }
  }

  lemma {:induction false} ValueOfBits(v: nat, n: nat)
    requires v < Pow2(n)
    ensures Value(Bits(v, n)) == v
  {
    if n > 0 {
      var bits := Bits(v, n);
      assert bits[..n - 1] == Bits(v / 2, n - 1);
      ValueOfBits(v / 2, n - 1);
    }
  }

  /** The bits of a number of two parts. */
  lemma {:induction false} BitsSplit(high: nat, low: nat, m: nat, n: nat)
    requires low < Pow2(n)
    ensures Bits(high * Pow2(n) + low, m + n) == Bits(high, m) + Bits(low, n)
    decreases n
  {
    if n == 0 {
      assert Bits(high, m) + [] == Bits(high, m);
    } else {
      var v := high * Pow2(n) + low;
      Halves(high, low, n);
      BitsSplit(high, low / 2, m, n - 1);
      assert Bits(high, m) + (Bits(low / 2, n - 1) + [low % 2 == 1])
          == Bits(high, m) + Bits(low / 2, n - 1) + [low % 2 == 1];
    }
  }

  lemma Halves(high: nat, low: nat, n: nat)
    requires n > 0
    ensures (high * Pow2(n) + low) / 2 == high * Pow2(n - 1) + low / 2
    ensures (high * Pow2(n) + low) % 2 == low % 2
  {
    var h := high * Pow2(n - 1);
    assert high * Pow2(n) == 2 * h by { Twice(high, Pow2(n - 1)); }
  }

  lemma Twice(a: nat, b: nat)
    ensures a * (2 * b) == 2 * (a * b)
  {
  }

  /** Bits beyond the low ones do not show. */
  lemma {:induction false} BitsLow(v: nat, n: nat, m: nat)
    requires n <= m
    ensures Bits(v, n) == Bits(v % Pow2(m), n)
    decreases n
  {
    if n > 0 {
      LowHalf(v, m);
      BitsLow(v / 2, n - 1, m - 1);
    }
  }

  lemma LowHalf(v: nat, m: nat)
    requires m > 0
    ensures v % Pow2(m) / 2 == v / 2 % Pow2(m - 1) && v % Pow2(m) % 2 == v % 2
  {
    var p := Pow2(m - 1);
    var q, r := v / 2 / p, v / 2 % p;
    assert v / 2 == p * q + r;
    var low := v % 2;
    assert v == 2 * (p * q + r) + low;
    Twice(q, p);
    Remainder(v, 2 * p, q, 2 * r + low);
  }

  lemma Remainder(v: nat, p: nat, q: nat, r: nat)
    requires r < p && v == q * p + r
    ensures v % p == r
  {
    var q', r' := v / p, v % p;
    assert v == p * q' + r';
    if q' < q {
      Apart(p, q', q);
    } else if q < q' {
      Apart(p, q, q');
    }
  }

  lemma Apart(p: nat, a: nat, b: nat)
    requires a < b
    ensures b * p >= a * p + p && a * p == p * a && b * p == p * b
  {
    assert (b - a) * p >= p by { AtLeast(b - a, p); }
  }

  lemma AtLeast(k: nat, p: nat)
    requires k >= 1
    ensures k * p >= p
  {
  }

  // ----- Bytes -----

  function BitsOf(data: seq<byte>): (r: seq<bool>)
    ensures |r| == 8 * |data|
  {
    if data == [] then [] else Bits(data[0], 8) + BitsOf(data[1..])
  }

  lemma EightBits()
    ensures Pow2(8) == 256
  {
    assert Pow2(4) == 16;
  }

  /** The bytes of a bit string, whatever is left over at its end being dropped. */
  function Pack(bits: seq<bool>): (r: seq<byte>)
    ensures |r| == |bits| / 8
    decreases |bits|
  {
    if |bits| < 8 then []
    else
      EightBits();
      [Value(bits[..8])] + Pack(bits[8..])
  }

  lemma {:induction false} PackBits(data: seq<byte>, spare: seq<bool>)
    requires |spare| < 8
    ensures Pack(BitsOf(data) + spare) == data
  {
    var bits := BitsOf(data) + spare;
    if data != [] {
      EightBits();
      assert bits[..8] == Bits(data[0], 8);
      assert bits[8..] == BitsOf(data[1..]) + spare;
      ValueOfBits(data[0], 8);
      PackBits(data[1..], spare);
    }
  }

  lemma {:induction false} BitsOfPack(bits: seq<bool>)
    requires |bits| % 8 == 0
    ensures BitsOf(Pack(bits)) == bits
    decreases |bits|
  {
    if bits != [] {
      BitsOfValue(bits[..8]);
      BitsOfPack(bits[8..]);
      assert bits == bits[..8] + bits[8..];
      assert Pack(bits)[1..] == Pack(bits[8..]);
    }
  }

  // ----- Groups of w bits -----

  /** A bit string cut into groups of `w` bits, the last filled up with zeros. */
  function Groups(bits: seq<bool>, w: nat): (r: seq<nat>)
    requires w > 0
    ensures forall k :: 0 <= k < |r| ==> r[k] < Pow2(w)
    decreases |bits|
  {
    if bits == [] then []
    else if |bits| <= w then [Value(bits + seq(w - |bits|, _ => false))]
    else [Value(bits[..w])] + Groups(bits[w..], w)
  }

  function Ungroup(gs: seq<nat>, w: nat): (r: seq<bool>)
    ensures |r| == w * |gs|
  {
    if gs == [] then [] else
      Widths(w, |gs|);
      Bits(gs[0], w) + Ungroup(gs[1..], w)
  }

  lemma Widths(w: nat, n: nat)
    requires n > 0
    ensures w + w * (n - 1) == w * n
  {
  }

  lemma UngroupFirst(bits: seq<bool>, w: nat)
    requires 0 < w < |bits|
    ensures Ungroup(Groups(bits, w), w) == bits[..w] + Ungroup(Groups(bits[w..], w), w)
  {
    BitsOfValue(bits[..w]);
    assert Groups(bits, w)[1..] == Groups(bits[w..], w);
  }

  lemma UngroupOne(full: seq<bool>, w: nat)
    requires |full| == w
    ensures Ungroup([Value(full)], w) == full
  {
    BitsOfValue(full);
    assert [Value(full)][1..] == [];
    assert full + [] == full;
  }

  /** The groups hold the bits, with less than a group of zeros behind them. */
  lemma {:induction false} UngroupGroups(bits: seq<bool>, w: nat)
    requires w > 0
    ensures var back := Ungroup(Groups(bits, w), w);
            |bits| <= |back| < |bits| + w && back[..|bits|] == bits
    decreases |bits|
  {
    if bits == [] {
    } else if |bits| <= w {
      var full := bits + seq(w - |bits|, _ => false);
      UngroupOne(full, w);
    } else {
      UngroupGroups(bits[w..], w);
      UngroupFirst(bits, w);
      var more := Ungroup(Groups(bits[w..], w), w);
      assert (bits[..w] + more)[..|bits|] == bits[..w] + more[..|bits| - w];
    }
  }
}
