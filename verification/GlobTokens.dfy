/** What the patterns of packages/wasi-hf/src/util.rs are, byte by byte. */
module GlobTokens {
  import opened Bytes
  import opened Glob

  /** `*`, `?`, and any other byte that does not begin a class. */
  lemma PlainTokens(b: byte, p: seq<byte>)
    requires b != 91
    ensures Tokens([b] + p) == [if b == 42 then Star else if b == 63 then Any else Literal(b)] + Tokens(p)
  {
    assert ([b] + p)[1..] == p;
  }

  /** `[` that no `]` follows, but for one right behind it or behind its `!` or `^`. */
  lemma OpenBracket(p: seq<byte>)
    requires 93 !in p
    ensures Tokens([91] + p) == [Literal(91)] + Tokens(p)
  {
    var all := [91] + p;
    assert all[1..] == p;
    assert forall k :: 1 <= k < |all| ==> all[k] == p[k - 1];
    NeverClosed(all, 1, true);
    NeverClosed(all, 2, true);
  }

  lemma {:induction false} NeverClosed(p: seq<byte>, i: nat, first: bool)
    requires forall k :: i <= k < |p| ==> p[k] != 93
    ensures Items(p, i, first) == None
    decreases |p| - i
  {
    if i < |p| {
      NeverClosed(p, i + 1, false);
      NeverClosed(p, i + 3, false);
    }
  }

  /** `[x]` is the byte x, and `[x-y]` any from x to y. */
  lemma ClassTokens(x: byte, y: byte, p: seq<byte>)
    requires x != 33 && x != 94
    ensures Tokens([91, x, 93] + p) == [OneOf(false, [Range(x, x)])] + Tokens(p)
    ensures y != 93 ==> Tokens([91, x, 45, y, 93] + p) == [OneOf(false, [Range(x, y)])] + Tokens(p)
  {
    var one, two := [91, x, 93] + p, [91, x, 45, y, 93] + p;
    assert one[3..] == p && two[5..] == p;
    assert Items(one, 2, false) == Some(([], 3));
    assert [Range(x, x)] + [] == [Range(x, x)];
    if y != 93 {
      assert Items(two, 4, false) == Some(([], 5));
      assert [Range(x, y)] + [] == [Range(x, y)];
    }
  }

  /** `[!x]` and `[^x]` are any byte but x. */
  lemma NegatedTokens(sign: byte, x: byte, p: seq<byte>)
    requires sign == 33 || sign == 94
    ensures Tokens([91, sign, x, 93] + p) == [OneOf(true, [Range(x, x)])] + Tokens(p)
    ensures forall c: byte :: Accepts(OneOf(true, [Range(x, x)]), c) <==> c != x
  {
    var all := [91, sign, x, 93] + p;
    assert all[4..] == p;
    assert Items(all, 3, false) == Some(([], 4));
    assert [Range(x, x)] + [] == [Range(x, x)];
    assert forall c: byte :: InItems([Range(x, x)], c) <==> [Range(x, x)][0].lo <= c <= [Range(x, x)][0].hi;
  }
}
