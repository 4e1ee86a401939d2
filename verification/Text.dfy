/** The string operations of Rust's standard library that the HTTP client leans on. */
module Text {
  import opened Bytes

  // ----- Searching and splitting -----

  function IndexOf(s: string, c: char): (r: nat)
    ensures r <= |s| && (forall k :: 0 <= k < r ==> s[k] != c) && (r < |s| ==> s[r] == c)
  {
    if s == "" then 0 else if s[0] == c then 0 else 1 + IndexOf(s[1..], c)
  }

  function LastIndexOf(s: string, c: char): (r: Option<nat>)
    ensures r.Some? ==> r.value < |s| && s[r.value] == c && forall k :: r.value < k < |s| ==> s[k] != c
    ensures r.None? ==> c !in s
  {
    if s == "" then None
    else if s[|s| - 1] == c then Some(|s| - 1)
    else LastIndexOf(s[..|s| - 1], c)
  }

  /** `split`. */
  function Split(s: string, c: char): (r: seq<string>)
    ensures r != []
    decreases |s|
  {
    var k := IndexOf(s, c);
    if k == |s| then [s] else [s[..k]] + Split(s[k + 1..], c)
  }

  /** The part before the first `c`, or all of it. */
  function Before(s: string, c: char): string {
    s[..IndexOf(s, c)]
  }

  lemma IndexUnique(s: string, c: char, k: nat)
    requires k <= |s| && (forall j :: 0 <= j < k ==> s[j] != c) && (k < |s| ==> s[k] == c)
    ensures IndexOf(s, c) == k
  {
  }

  lemma LastIndexUnique(s: string, c: char, k: nat)
    requires k < |s| && s[k] == c && forall j :: k < j < |s| ==> s[j] != c
    ensures LastIndexOf(s, c) == Some(k)
  {
  }

  lemma {:induction false} SplitParts(s: string, c: char)
    ensures forall k, x :: 0 <= k < |Split(s, c)| && x in Split(s, c)[k] ==> x in s
    decreases |s|
  {
    var k := IndexOf(s, c);
    if k < |s| {
      SplitParts(s[k + 1..], c);
      var parts := Split(s, c);
      assert parts == [s[..k]] + Split(s[k + 1..], c);
      forall i, x | 0 <= i < |parts| && x in parts[i] ensures x in s {
        if i > 0 {
          assert parts[i] == Split(s[k + 1..], c)[i - 1];
          assert x in s[k + 1..];
        }
      }
    }
  }

  // ----- Trimming -----

  /** The Unicode property White_Space. */
  predicate White(c: char) {
    var n := c as int;
    9 <= n <= 13 || n == 0x20 || n == 0x85 || n == 0xA0 || n == 0x1680 || 0x2000 <= n <= 0x200A
    || n == 0x2028 || n == 0x2029 || n == 0x202F || n == 0x205F || n == 0x3000
  }

  lemma WhiteExact(c: char)
    ensures White(c) <==>
            c as int in {9, 10, 11, 12, 13, 32, 133, 160, 5760, 8192, 8193, 8194, 8195, 8196, 8197, 8198, 8199, 8200,
                         8201, 8202, 8232, 8233, 8239, 8287, 12288}
  {
  }

  predicate AllWhite(s: string) {
    forall k :: 0 <= k < |s| ==> White(s[k])
  }

  function TrimStart(s: string): string {
    if s != "" && White(s[0]) then TrimStart(s[1..]) else s
  }

  function TrimEnd(s: string): string {
    if s != "" && White(s[|s| - 1]) then TrimEnd(s[..|s| - 1]) else s
  }

  function Trim(s: string): string {
    TrimEnd(TrimStart(s))
  }

  predicate Trimmed(s: string) {
    s != "" ==> !White(s[0]) && !White(s[|s| - 1])
  }

  lemma {:induction false} TrimStartPadded(pad: string, s: string)
    requires AllWhite(pad)
    ensures TrimStart(pad + s) == TrimStart(s)
  {
    if pad == "" {
      assert pad + s == s;
    } else {
      assert (pad + s)[0] == pad[0];
      assert (pad + s)[1..] == pad[1..] + s;
      TrimStartPadded(pad[1..], s);
    }
  }

  lemma {:induction false} TrimEndPadded(s: string, pad: string)
    requires AllWhite(pad)
    ensures TrimEnd(s + pad) == TrimEnd(s)
  {
    if pad == "" {
      assert s + pad == s;
    } else {
      assert (s + pad)[|s + pad| - 1] == pad[|pad| - 1];
      assert (s + pad)[..|s + pad| - 1] == s + pad[..|pad| - 1];
      TrimEndPadded(s, pad[..|pad| - 1]);
    }
  }

  /** Trimming takes off the white space around a text that has none at its ends. */
  lemma TrimPadded(before: string, s: string, after: string)
    requires AllWhite(before) && AllWhite(after) && Trimmed(s)
    ensures Trim(before + s + after) == s
  {
    assert before + s + after == before + (s + after);
    TrimStartPadded(before, s + after);
    if s == "" {
      TrimStartPadded(after, "");
      assert s + after == after && after + "" == after;
    } else {
      assert (s + after)[0] == s[0];
      TrimEndPadded(s, after);
    }
  }

  lemma {:induction false} TrimStartTrimmed(s: string)
    ensures TrimStart(s) != "" ==> !White(TrimStart(s)[0])
  {
    if s != "" && White(s[0]) {
      TrimStartTrimmed(s[1..]);
    }
  }

  lemma {:induction false} TrimEndTrimmed(s: string)
    ensures TrimEnd(s) <= s && (TrimEnd(s) != "" ==> !White(TrimEnd(s)[|TrimEnd(s)| - 1]))
  {
    if s != "" && White(s[|s| - 1]) {
      TrimEndTrimmed(s[..|s| - 1]);
    }
  }

  /** What is trimmed stays so. */
  lemma TrimIsTrimmed(s: string)
    ensures Trimmed(Trim(s)) && Trim(Trim(s)) == Trim(s)
  {
    TrimStartTrimmed(s);
    TrimEndTrimmed(TrimStart(s));
  }

  // ----- Case -----

  function LowerChar(c: char): char {
    if 'A' <= c <= 'Z' then (c as int + 32) as char else c
  }

  function Lower(s: string): (r: string)
    ensures |r| == |s|
  {
    seq(|s|, i requires 0 <= i < |s| => LowerChar(s[i]))
  }

  /** `eq_ignore_ascii_case`. */
  predicate SameName(a: string, b: string) {
    Lower(a) == Lower(b)
  }

  /** The capital and the small form of one letter. */
  predicate Capital(a: char, b: char) {
    'A' <= a <= 'Z' && 'a' <= b <= 'z' && b as int - a as int == 'a' as int - 'A' as int
  }

  /** The same text but for the case of its letters. */
  predicate SameLetters(a: string, b: string) {
    |a| == |b| && forall k :: 0 <= k < |a| ==> a[k] == b[k] || Capital(a[k], b[k]) || Capital(b[k], a[k])
  }

  lemma SameNameExact(a: string, b: string)
    ensures SameName(a, b) <==> SameLetters(a, b)
  {
    var x, y := Lower(a), Lower(b);
    if |a| == |b| {
      forall k | 0 <= k < |a|
        ensures x[k] == y[k] <==> a[k] == b[k] || Capital(a[k], b[k]) || Capital(b[k], a[k])
      {
        LowerChars(a[k], b[k]);
      }
      if SameLetters(a, b) {
        assert x == y;
      }
    } else {
      assert |x| == |a| && |y| == |b|;
    }
  }

  lemma LowerChars(a: char, b: char)
    ensures LowerChar(a) == LowerChar(b) <==> a == b || Capital(a, b) || Capital(b, a)
  {
  }

  // ----- Unsigned numbers -----

  function Digit(c: char, base: nat): (r: Option<nat>)
    ensures r.Some? ==> r.value < base
  {
    var v :=
      if '0' <= c <= '9' then c as int - '0' as int
      else if 'a' <= c <= 'z' then c as int - 'a' as int + 10
      else if 'A' <= c <= 'Z' then c as int - 'A' as int + 10
      else base;
    if v < base then Some(v) else None
  }

  /** The value of a text of digits, if it is one. */
  function Digits(s: string, base: nat): Option<nat> {
    if s == "" then Some(0)
    else
      match (Digits(s[..|s| - 1], base), Digit(s[|s| - 1], base))
      case (Some(high), Some(low)) => Some(high * base + low)
      case _ => None
  }

  /** `from_str_radix`, and `parse` in base ten, for an unsigned type of the given size. */
  function ParseUnsigned(s: string, base: nat, size: nat): (r: Option<nat>)
    ensures r.Some? ==> r.value < size
  {
    var digits := if s != "" && s[0] == '+' then s[1..] else s;
    if digits == "" then None
    else
      match Digits(digits, base)
      case Some(n) => if n < size then Some(n) else None
      case None => None
  }

  function DigitChar(d: nat): char
    requires d < 16
  {
    if d < 10 then ('0' as int + d) as char else ('a' as int + (d - 10)) as char
  }

  /** A number written out, without leading zeros. */
  function Numeral(n: nat, base: nat): (r: string)
    requires 2 <= base <= 16
    ensures r != "" && forall k :: 0 <= k < |r| ==> Digit(r[k], base).Some?
    decreases n
  {
    if n < base then [DigitChar(n)] else
      QuotientSmaller(n, base);
      Numeral(n / base, base) + [DigitChar(n % base)]
  }

  lemma QuotientSmaller(n: nat, base: nat)
    requires 2 <= base <= n
    ensures 0 < n / base < n
  {
    var q, r := n / base, n % base;
    Doubles(q, base);
    assert n == base * q + r && r < base;
  }

  lemma Doubles(q: int, base: nat)
    requires 2 <= base
    ensures q > 0 ==> base * q >= q + q
    ensures q <= 0 ==> base * q <= 0
  {
    assert base * q == (base - 2) * q + 2 * q;
  }

  lemma DigitsPush(s: string, n: nat, d: nat, base: nat)
    requires Digits(s, base) == Some(n) && d < base <= 16
    ensures Digits(s + [DigitChar(d)], base) == Some(n * base + d)
  {
    assert (s + [DigitChar(d)])[..|s|] == s;
  }

  lemma Division(n: nat, base: nat)
    requires 2 <= base <= n
    ensures n / base * base + n % base == n
  {
  }

  lemma {:induction false} NumeralDigits(n: nat, base: nat)
    requires 2 <= base <= 16
    ensures Digits(Numeral(n, base), base) == Some(n)
    decreases n
  {
    hide Digits, DigitChar;
    if n < base {
      assert Digits("", base) == Some(0) by { NoDigits(base); }
      DigitsPush("", 0, n, base);
      assert "" + [DigitChar(n)] == Numeral(n, base);
    } else {
      QuotientSmaller(n, base);
      NumeralDigits(n / base, base);
      DigitsPush(Numeral(n / base, base), n / base, n % base, base);
      Division(n, base);
    }
  }

  lemma NoDigits(base: nat)
    ensures Digits("", base) == Some(0)
  {
  }

  /** What is written out reads back. */
  lemma ParseNumeral(n: nat, base: nat, size: nat)
    requires 2 <= base <= 16 && n < size
    ensures ParseUnsigned(Numeral(n, base), base, size) == Some(n)
  {
    NumeralDigits(n, base);
    assert Digit(Numeral(n, base)[0], base).Some?;
  }

  lemma {:induction false} DigitsOnly(s: string, base: nat)
    requires Digits(s, base).Some?
    ensures forall k :: 0 <= k < |s| ==> Digit(s[k], base).Some?
  {
    if s != "" {
      DigitsOnly(s[..|s| - 1], base);
    }
  }
}
