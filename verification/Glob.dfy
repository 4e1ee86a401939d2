/**
 The glob matcher of packages/wasi-hf/src/util.rs: an iterative matcher that remembers
 only the last star, proved equal to the recursive meaning of the pattern.
 */
module Glob {
  import opened Bytes

  const STAR: byte := 42      // *
  const QUESTION: byte := 63  // ?
  const OPEN: byte := 91      // [
  const CLOSE: byte := 93     // ]
  const BANG: byte := 33      // !
  const CARET: byte := 94     // ^
  const DASH: byte := 45      // -
  const SLASH: byte := 47     // /

  /** One member of a character class; a single byte is a range with equal ends. */
  datatype Item = Range(lo: byte, hi: byte)

  /** A terminated character class: what it holds, and how many pattern bytes it takes. */
  datatype Bracket = Bracket(negate: bool, items: seq<Item>, width: nat)

  datatype Token =
    | Star
    | Any
    | Literal(b: byte)
    | OneOf(negate: bool, items: seq<Item>)

  // ----- What a pattern means -----

  predicate InItems(items: seq<Item>, c: byte) {
    exists k :: 0 <= k < |items| && items[k].lo <= c <= items[k].hi
  }

  /** The members from index `i` up to the closing bracket, and the index past it. */
  function Items(p: seq<byte>, i: nat, first: bool): (r: Option<(seq<Item>, nat)>)
    ensures r.Some? ==> i < r.value.1 <= |p|
    decreases |p| - i
  {
    if i >= |p| then None
    else if p[i] == CLOSE && !first then Some(([], i + 1))
    else
      var isRange := i + 2 < |p| && p[i + 1] == DASH && p[i + 2] != CLOSE;
      var item := if isRange then Range(p[i], p[i + 2]) else Range(p[i], p[i]);
      match Items(p, if isRange then i + 3 else i + 1, false)
      case None => None
      case Some((rest, end)) => Some(([item] + rest, end))
  }

  /** The class that starts at p[0]; it does not depend on the byte to be tested. */
  function BracketAt(p: seq<byte>): (r: Option<Bracket>)
    ensures r.Some? ==> 1 < r.value.width <= |p|
  {
    var negate := |p| > 1 && (p[1] == BANG || p[1] == CARET);
    match Items(p, if negate then 2 else 1, true)
    case None => None
    case Some((items, end)) => Some(Bracket(negate, items, end))
  }

  /** The token at the start of p and how many pattern bytes it takes. */
  function First(p: seq<byte>): (r: (Token, nat))
    requires p != []
    ensures 1 <= r.1 <= |p|
  {
    if p[0] == STAR then (Star, 1)
    else if p[0] == QUESTION then (Any, 1)
    else if p[0] == OPEN && BracketAt(p).Some? then
      var br := BracketAt(p).value;
      (OneOf(br.negate, br.items), br.width)
    else (Literal(p[0]), 1)
  }

  function Tokens(p: seq<byte>): seq<Token>
    decreases |p|
  {
    if p == [] then []
    else
      var (token, width) := First(p);
      [token] + Tokens(p[width..])
  }

  predicate Accepts(t: Token, c: byte)
    requires !t.Star?
  {
    match t
    case Any => true
    case Literal(b) => b == c
    case OneOf(negate, items) => InItems(items, c) != negate
  }

  /** The language of a token list: a star stands for any string, every other token for one byte. */
  ghost predicate Denotes(ts: seq<Token>, s: seq<byte>)
    decreases |ts|
  {
    if ts == [] then s == []
    else if ts[0].Star? then exists k :: 0 <= k <= |s| && Denotes(ts[1..], s[k..])
    else s != [] && Accepts(ts[0], s[0]) && Denotes(ts[1..], s[1..])
  }

  // ----- Lemmas about the meaning -----

  predicate Starless(ts: seq<Token>) {
    forall k :: 0 <= k < |ts| ==> !ts[k].Star?
  }

  /** Starless tokens use up exactly one byte each. */
  lemma {:induction false} StarlessPrefix(seg: seq<Token>, rest: seq<Token>, s: seq<byte>)
    requires Starless(seg) && Denotes(seg + rest, s)
    ensures |seg| <= |s| && Denotes(rest, s[|seg|..])
    decreases |seg|
  {
    if seg == [] {
      assert seg + rest == rest && s[0..] == s;
    } else {
      assert (seg + rest)[1..] == seg[1..] + rest;
      StarlessPrefix(seg[1..], rest, s[1..]);
      assert s[1..][|seg| - 1..] == s[|seg|..];
    }
  }

  /** A pattern that begins with a star matches on from any earlier position. */
  lemma StarAbsorbs(rest: seq<Token>, s: seq<byte>, k: nat)
    requires k <= |s| && Denotes([Star] + rest, s[k..])
    ensures Denotes([Star] + rest, s)
  {
    assert ([Star] + rest)[1..] == rest;
    var j :| 0 <= j <= |s[k..]| && Denotes(rest, s[k..][j..]);
    assert s[k..][j..] == s[k + j..];
  }

  /** A leading star tries the current position first, then each later one. */
  lemma StarSplits(rest: seq<Token>, s: seq<byte>, i: nat)
    requires i <= |s|
    ensures Denotes([Star] + rest, s[i..])
            <==> Denotes(rest, s[i..]) || MatchesAfter(rest, s, i)
  {
    assert ([Star] + rest)[1..] == rest;
    if Denotes([Star] + rest, s[i..]) {
      var j :| 0 <= j <= |s[i..]| && Denotes(rest, s[i..][j..]);
      assert s[i..][j..] == s[i + j..];
    }
    if Denotes(rest, s[i..]) {
      assert s[i..][0..] == s[i..];
    }
    if MatchesAfter(rest, s, i) {
      var m :| i < m <= |s| && Denotes(rest, s[m..]);
      assert s[i..][m - i..] == s[m..];
    }
  }

  /** Some suffix of s that starts after position i is in the language. */
  ghost predicate MatchesAfter(ts: seq<Token>, s: seq<byte>, i: nat) {
    exists m :: i < m <= |s| && Denotes(ts, s[m..])
  }

  /** Moving the mark one on tries that position and leaves the later ones. */
  lemma MatchesAfterStep(ts: seq<Token>, s: seq<byte>, i: nat)
    requires i < |s|
    ensures MatchesAfter(ts, s, i) <==> Denotes(ts, s[i + 1..]) || MatchesAfter(ts, s, i + 1)
  {
    if Denotes(ts, s[i + 1..]) {
      assert i < i + 1 <= |s|;
    }
  }

  /** Why one remembered star is enough: once a second star is reached, whatever an earlier
      star could still match from a later mark, the second star matches from here. */
  lemma LastStarSuffices(seg: seq<Token>, rest: seq<Token>, s: seq<byte>, mark: nat, si: nat)
    requires Starless(seg) && mark + |seg| == si <= |s|
    requires MatchesAfter(seg + ([Star] + rest), s, mark)
    ensures Denotes([Star] + rest, s[si..])
  {
    var m :| mark < m <= |s| && Denotes(seg + ([Star] + rest), s[m..]);
    StarlessPrefix(seg, [Star] + rest, s[m..]);
    assert s[m..][|seg|..] == s[si..][m - mark..];
    StarAbsorbs(rest, s[si..], m - mark);
  }

  /** At the end of the string no later mark of the last star can match. */
  lemma NoRoomLeft(seg: seq<Token>, rest: seq<Token>, s: seq<byte>, mark: nat)
    requires Starless(seg) && mark + |seg| == |s|
    ensures !MatchesAfter(seg + rest, s, mark)
  {
    if MatchesAfter(seg + rest, s, mark) {
      var m :| mark < m <= |s| && Denotes(seg + rest, s[m..]);
      StarlessPrefix(seg, rest, s[m..]);
    }
  }

  lemma {:induction false} DenotesAppend(a: seq<Token>, b: seq<Token>, s: seq<byte>)
    ensures Denotes(a + b, s) <==> exists k :: 0 <= k <= |s| && Denotes(a, s[..k]) && Denotes(b, s[k..])
    decreases |a|
  {
    if a == [] {
      assert a + b == b && s[..0] == [] && s[0..] == s;
    } else {
      assert (a + b)[1..] == a[1..] + b;
      if a[0].Star? {
        DenotesAppendStar(a, b, s);
      } else if s != [] {
        DenotesAppend(a[1..], b, s[1..]);
        if Denotes(a + b, s) {
          var k :| 0 <= k <= |s[1..]| && Denotes(a[1..], s[1..][..k]) && Denotes(b, s[1..][k..]);
          assert s[..k + 1][1..] == s[1..][..k] && s[k + 1..] == s[1..][k..];
          assert Denotes(a, s[..k + 1]);
        }
        if k :| 0 <= k <= |s| && Denotes(a, s[..k]) && Denotes(b, s[k..]) {
          assert s[..k][1..] == s[1..][..k - 1] && s[k..] == s[1..][k - 1..];
        }
      }
    }
  }

  lemma DenotesAppendStar(a: seq<Token>, b: seq<Token>, s: seq<byte>)
    requires a != [] && a[0].Star?
    ensures Denotes(a + b, s) <==> exists k :: 0 <= k <= |s| && Denotes(a, s[..k]) && Denotes(b, s[k..])
    decreases |a|, 0
  {
    assert (a + b)[1..] == a[1..] + b;
    if Denotes(a + b, s) {
      var j :| 0 <= j <= |s| && Denotes(a[1..] + b, s[j..]);
      DenotesAppend(a[1..], b, s[j..]);
      var k :| 0 <= k <= |s[j..]| && Denotes(a[1..], s[j..][..k]) && Denotes(b, s[j..][k..]);
      assert s[..j + k][j..] == s[j..][..k] && s[j + k..] == s[j..][k..];
      assert Denotes(a, s[..j + k]);
    }
    if k :| 0 <= k <= |s| && Denotes(a, s[..k]) && Denotes(b, s[k..]) {
      var j :| 0 <= j <= |s[..k]| && Denotes(a[1..], s[..k][j..]);
      assert s[j..][..k - j] == s[..k][j..] && s[j..][k - j..] == s[k..];
      DenotesAppend(a[1..], b, s[j..]);
    }
  }

  // ----- The matcher -----

  lemma InItemsAppend(items: seq<Item>, item: Item, c: byte)
    ensures InItems(items + [item], c) <==> InItems(items, c) || item.lo <= c <= item.hi
  {
    var all := items + [item];
    assert forall k :: 0 <= k < |items| ==> all[k] == items[k];
    assert all[|items|] == item;
  }

  /** `class`: whether c is in the class at the start of p, and the class's length. */
  method Class(p: seq<byte>, c: byte) returns (r: Option<(bool, nat)>)
    ensures BracketAt(p).None? ==> r.None?
    ensures BracketAt(p).Some? ==>
              var br := BracketAt(p).value;
              r == Some((InItems(br.items, c) != br.negate, br.width))
  {
    var i := 1;
    var negate := |p| > 1 && (p[1] == BANG || p[1] == CARET);
    if negate {
      i := i + 1;
    }
    var hit := false;
    var first := true;
    ghost var done: seq<Item> := [];
    ghost var whole := Items(p, i, true);
    assert whole.Some? ==> [] + whole.value.0 == whole.value.0;
    while i < |p|
      invariant hit == InItems(done, c)
      invariant whole == Prepend(done, Items(p, i, first))
    {
      if p[i] == CLOSE && !first {
        assert done + [] == done;
        return Some((hit != negate, i + 1));
      }
      if i + 2 < |p| && p[i + 1] == DASH && p[i + 2] != CLOSE {
        PrependStep(done, Range(p[i], p[i + 2]), Items(p, i + 3, false));
        InItemsAppend(done, Range(p[i], p[i + 2]), c);
        done := done + [Range(p[i], p[i + 2])];
        if p[i] <= c && c <= p[i + 2] {
          hit := true;
        }
        i := i + 3;
      } else {
        PrependStep(done, Range(p[i], p[i]), Items(p, i + 1, false));
        InItemsAppend(done, Range(p[i], p[i]), c);
        done := done + [Range(p[i], p[i])];
        if p[i] == c {
          hit := true;
        }
        i := i + 1;
      }
      first := false;
    }
    return None;
  }

  ghost function Prepend(done: seq<Item>, r: Option<(seq<Item>, nat)>): Option<(seq<Item>, nat)> {
    match r
    case None => None
    case Some((items, end)) => Some((done + items, end))
  }

  lemma PrependStep(done: seq<Item>, item: Item, r: Option<(seq<Item>, nat)>)
    ensures Prepend(done, Prepend([item], r)) == Prepend(done + [item], r)
  {
    if r.Some? {
      assert done + ([item] + r.value.0) == (done + [item]) + r.value.0;
    }
  }

  /** Whether the token at the start of q takes the byte c; a class without an end is a
      literal bracket. */
  method Step(q: seq<byte>, c: byte) returns (ok: bool, width: nat)
    requires q != [] && q[0] != STAR
    ensures !First(q).0.Star? && width == First(q).1 && ok == Accepts(First(q).0, c)
  {
    ok, width := false, 1;
    if q[0] == QUESTION {
      ok := true;
    } else if q[0] == OPEN {
      var found := Class(q, c);
      if found.Some? {
        ok, width := found.value.0, found.value.1;
      } else {
        ok := c == OPEN;
      }
    } else {
      ok := q[0] == c;
    }
  }

  /** The last star, the tokens between it and the current pattern position, and the byte
      position `mark` those tokens were matched from. */
  ghost predicate Segment(p: seq<byte>, pi: nat, st: nat, seg: seq<Token>, mark: nat, si: nat) {
    && st < pi <= |p|
    && Starless(seg)
    && mark + |seg| == si
    && Tokens(p[st + 1..]) == seg + Tokens(p[pi..])
  }

  /** What the matcher has still to decide: the answer for (p, s) is that some alternative
      it keeps matches. */
  ghost predicate Decides(p: seq<byte>, s: seq<byte>, pi: nat, si: nat, star: Option<nat>, mark: nat, seg: seq<Token>) {
    && pi <= |p| && mark <= si <= |s|
    && (star.Some? ==> Segment(p, pi, star.value, seg, mark, si))
    && (Denotes(Tokens(p), s) <==> Alternatives(p, s, pi, si, star, mark))
  }

  ghost predicate Alternatives(p: seq<byte>, s: seq<byte>, pi: nat, si: nat, star: Option<nat>, mark: nat)
    requires pi <= |p| && si <= |s| && (star.Some? ==> star.value < |p|)
  {
    || Denotes(Tokens(p[pi..]), s[si..])
    || (star.Some? && MatchesAfter(Tokens(p[star.value + 1..]), s, mark))
  }

  lemma TakeStar(p: seq<byte>, s: seq<byte>, pi: nat, si: nat, star: Option<nat>, mark: nat, seg: seq<Token>)
    requires Decides(p, s, pi, si, star, mark, seg) && pi < |p| && p[pi] == STAR
    ensures Decides(p, s, pi + 1, si, Some(pi), si, [])
  {
    var rest := Tokens(p[pi + 1..]);
    assert p[pi..][1..] == p[pi + 1..];
    assert Tokens(p[pi..]) == [Star] + rest;
    assert [] + rest == rest;
    if star.Some? && MatchesAfter(Tokens(p[star.value + 1..]), s, mark) {
      LastStarSuffices(seg, rest, s, mark, si);
    }
    StarSplits(rest, s, si);
    assert Alternatives(p, s, pi, si, star, mark) <==> Alternatives(p, s, pi + 1, si, Some(pi), si);
  }

  lemma TakeByte(p: seq<byte>, s: seq<byte>, pi: nat, si: nat, star: Option<nat>, mark: nat, seg: seq<Token>,
                 token: Token, width: nat)
    requires Decides(p, s, pi, si, star, mark, seg) && pi < |p| && si < |s|
    requires First(p[pi..]) == (token, width) && !token.Star? && Accepts(token, s[si])
    ensures Decides(p, s, pi + width, si + 1, star, mark, seg + [token])
  {
    var rest := Tokens(p[pi + width..]);
    assert p[pi..][width..] == p[pi + width..];
    assert Tokens(p[pi..]) == [token] + rest;
    assert ([token] + rest)[1..] == rest && s[si..][1..] == s[si + 1..];
    assert seg + ([token] + rest) == (seg + [token]) + rest;
    assert Alternatives(p, s, pi, si, star, mark) <==> Alternatives(p, s, pi + width, si + 1, star, mark);
  }

  lemma RefuseByte(p: seq<byte>, s: seq<byte>, pi: nat, si: nat)
    requires pi < |p| && si < |s|
    requires !First(p[pi..]).0.Star? && !Accepts(First(p[pi..]).0, s[si])
    ensures !Denotes(Tokens(p[pi..]), s[si..])
  {
  }

  lemma PatternSpent(p: seq<byte>, s: seq<byte>, pi: nat, si: nat)
    requires pi == |p| && si < |s|
    ensures !Denotes(Tokens(p[pi..]), s[si..])
  {
  }

  /** `matches`: backtracks to the last star only, and still decides exactly the
      pattern's language. */
  method Matches(p: seq<byte>, s: seq<byte>) returns (b: bool)
    ensures b <==> Denotes(Tokens(p), s)
  {
    hide Tokens, First, Denotes;
    var pi: nat, si: nat := 0, 0;
    var star: Option<nat>, mark: nat := None, 0;
    ghost var seg: seq<Token> := [];
    assert p[0..] == p && s[0..] == s;
    while si < |s|
      invariant pi <= |p| && mark <= si <= |s|
      invariant Decides(p, s, pi, si, star, mark, seg)
      decreases |s| - mark, |s| - si, |p| - pi
    {
      if pi < |p| {
        if p[pi] == STAR {
          TakeStar(p, s, pi, si, star, mark, seg);
          seg := [];
          star := Some(pi);
          mark := si;
          pi := pi + 1;
          continue;
        }
        var ok, width := Step(p[pi..], s[si]);
        if ok {
          ghost var token := First(p[pi..]).0;
          TakeByte(p, s, pi, si, star, mark, seg, token, width);
          seg := seg + [token];
          pi := pi + width;
          si := si + 1;
          assert Decides(p, s, pi, si, star, mark, seg);
          continue;
        }
        RefuseByte(p, s, pi, si);
      } else {
        PatternSpent(p, s, pi, si);
      }
      if star.None? {
        return false;
      }
      Backtrack(p, s, pi, si, star.value, mark, seg);
      pi := star.value + 1;
      mark := mark + 1;
      si := mark;
      seg := [];
      assert Decides(p, s, pi, si, star, mark, seg);
    }
    Exhausted(p, s, pi, star, mark, seg);
    b := OnlyStars(p, pi);
  }

  /** The loop after the string is used up: whether only stars are left in the pattern. */
  method OnlyStars(p: seq<byte>, from: nat) returns (b: bool)
    requires from <= |p|
    ensures b <==> Denotes(Tokens(p[from..]), [])
  {
    var pi := from;
    while pi < |p| && p[pi] == STAR
      invariant pi <= |p|
      invariant Denotes(Tokens(p[from..]), []) <==> Denotes(Tokens(p[pi..]), [])
    {
      assert p[pi..][1..] == p[pi + 1..];
      EmptyAfterStar(Tokens(p[pi + 1..]));
      pi := pi + 1;
    }
    return pi == |p|;
  }

  lemma Backtrack(p: seq<byte>, s: seq<byte>, pi: nat, si: nat, st: nat, mark: nat, seg: seq<Token>)
    requires Decides(p, s, pi, si, Some(st), mark, seg) && si < |s|
    requires !Denotes(Tokens(p[pi..]), s[si..])
    ensures Decides(p, s, st + 1, mark + 1, Some(st), mark + 1, [])
  {
    MatchesAfterStep(Tokens(p[st + 1..]), s, mark);
    assert [] + Tokens(p[st + 1..]) == Tokens(p[st + 1..]);
    assert Alternatives(p, s, pi, si, Some(st), mark)
      <==> Alternatives(p, s, st + 1, mark + 1, Some(st), mark + 1);
  }

  lemma Exhausted(p: seq<byte>, s: seq<byte>, pi: nat, star: Option<nat>, mark: nat, seg: seq<Token>)
    requires Decides(p, s, pi, |s|, star, mark, seg)
    ensures Denotes(Tokens(p), s) <==> Denotes(Tokens(p[pi..]), [])
  {
    assert s[|s|..] == [];
    if star.Some? {
      NoRoomLeft(seg, Tokens(p[pi..]), s, mark);
    }
  }

  lemma EmptyAfterStar(rest: seq<Token>)
    ensures Denotes([Star] + rest, []) <==> Denotes(rest, [])
  {
    var none: seq<byte> := [];
    assert ([Star] + rest)[1..] == rest && none[0..] == none;
    if Denotes(rest, none) {
      assert Denotes(rest, none[0..]);
    }
  }

  /** `glob`: a pattern that ends in a slash stands for everything below that folder. */
  method Glob(pattern: seq<byte>, path: seq<byte>) returns (b: bool)
    ensures pattern != [] && pattern[|pattern| - 1] == 47 ==>
              (b <==> exists k :: 0 <= k <= |path| && Denotes(Tokens(pattern), path[..k]))
    ensures pattern == [] || pattern[|pattern| - 1] != 47 ==> (b <==> Denotes(Tokens(pattern), path))
  {
    var p := if EndsInSlash(pattern) then pattern + [STAR] else pattern;
    b := Matches(p, path);
    if EndsInSlash(pattern) {
      FolderTokens(pattern);
      DenotesAppend(Tokens(pattern), [Star], path);
      forall k | 0 <= k <= |path| ensures Denotes([Star], path[k..]) {
        var u := path[k..];
        assert [Star][1..] == [] && u[|u|..] == [];
        assert Denotes([], u[|u|..]);
      }
    }
  }

  predicate EndsInSlash(p: seq<byte>) {
    p != [] && p[|p| - 1] == SLASH
  }

  /** Appending a star after a final slash adds one star token: no class takes it in. */
  lemma {:induction false} FolderTokens(p: seq<byte>)
    requires EndsInSlash(p)
    ensures Tokens(p + [STAR]) == Tokens(p) + [Star]
    decreases |p|
  {
    var q := p + [STAR];
    FolderBracket(p);
    var (token, width) := First(p);
    assert First(q) == (token, width);
    assert q[width..] == p[width..] + [STAR];
    if width < |p| {
      FolderTokens(p[width..]);
    } else {
      assert p[width..] == [];
      LoneStar();
    }
    assert Tokens(q) == [token] + Tokens(q[width..]);
  }

  lemma LoneStar()
    ensures Tokens([STAR]) == [Star]
  {
    assert [STAR][1..] == [];
  }

  lemma FolderBracket(p: seq<byte>)
    requires EndsInSlash(p)
    ensures BracketAt(p + [STAR]) == BracketAt(p)
  {
    if |p| > 1 {
      FolderItems(p, if p[1] == BANG || p[1] == CARET then 2 else 1, true);
    } else {
      var q := p + [STAR];
      assert Items(q, 2, false) == None && Items(q, 1, true) == None;
    }
  }

  lemma {:induction false} FolderItems(p: seq<byte>, i: nat, first: bool)
    requires EndsInSlash(p) && i <= |p|
    ensures Items(p + [STAR], i, first) == Items(p, i, first)
    decreases |p| - i
  {
    var q := p + [STAR];
    if i == |p| {
      assert Items(q, i + 1, false) == None;
      assert Items(q, i, first) == None;
    } else if !(p[i] == CLOSE && !first) {
      var isRange := i + 2 < |p| && p[i + 1] == DASH && p[i + 2] != CLOSE;
      FolderItems(p, if isRange then i + 3 else i + 1, false);
    }
  }
}
