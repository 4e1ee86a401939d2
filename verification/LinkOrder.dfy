/**
 The component closure of the generated llvm-config (packages/wasi-llvm/gen-llvm-config.py):
 a depth-first walk that shares one `seen` set and one `order` list.
 */
module LinkOrder {
  import opened Bytes

  datatype Component = Component(lib: Option<string>, deps: seq<string>)

  type Graph = map<string, Component>

  /** Installed component `b` is a direct dependency of component `a`. */
  predicate Edge(g: Graph, a: string, b: string) {
    a in g && b in g && b in g[a].deps
  }

  predicate Path(g: Graph, p: seq<string>) {
    |p| > 0 && (forall k :: 0 <= k < |p| ==> p[k] in g) && forall k :: 0 <= k < |p| - 1 ==> Edge(g, p[k], p[k + 1])
  }

  ghost predicate Reaches(g: Graph, a: string, b: string) {
    exists p :: Path(g, p) && p[0] == a && p[|p| - 1] == b
  }

  ghost predicate ReachedFrom(g: Graph, names: seq<string>, b: string) {
    exists k :: 0 <= k < |names| && Reaches(g, names[k], b)
  }

  /** No component depends on itself, even indirectly. */
  ghost predicate Acyclic(g: Graph) {
    forall a, b :: Edge(g, a, b) ==> !Reaches(g, b, a)
  }

  lemma ReachesSelf(g: Graph, a: string)
    requires a in g
    ensures Reaches(g, a, a)
  {
    assert Path(g, [a]) && [a][0] == a && [a][|[a]| - 1] == a;
  }

  lemma ReachesStep(g: Graph, a: string, b: string, c: string)
    requires Edge(g, a, b) && Reaches(g, b, c)
    ensures Reaches(g, a, c)
  {
    var p :| Path(g, p) && p[0] == b && p[|p| - 1] == c;
    var q := [a] + p;
    assert Path(g, q) && q[0] == a && q[|q| - 1] == c;
  }

  lemma ReachesTrans(g: Graph, a: string, b: string, c: string)
    requires Reaches(g, a, b) && Reaches(g, b, c)
    ensures Reaches(g, a, c)
  {
    var p :| Path(g, p) && p[0] == a && p[|p| - 1] == b;
    PathThen(g, p, c);
  }

  lemma {:induction false} PathThen(g: Graph, p: seq<string>, c: string)
    requires Path(g, p) && Reaches(g, p[|p| - 1], c)
    ensures Reaches(g, p[0], c)
    decreases |p|
  {
    if |p| > 1 {
      PathThen(g, p[1..], c);
      ReachesStep(g, p[0], p[1], c);
    }
  }

  /** A set that holds its members' dependencies holds everything they reach. */
  lemma {:induction false} ClosedHolds(g: Graph, seen: set<string>, p: seq<string>)
    requires forall a, b :: a in seen && Edge(g, a, b) ==> b in seen
    requires Path(g, p) && p[0] in seen
    ensures p[|p| - 1] in seen
    decreases |p|
  {
    if |p| > 1 {
      assert Edge(g, p[0], p[1]);
      ClosedHolds(g, seen, p[1..]);
    }
  }

  // ----- The walk -----

  predicate Distinct(xs: seq<string>) {
    forall i, j :: 0 <= i < j < |xs| ==> xs[i] != xs[j]
  }

  /** The components that are seen but not yet in the order: those the walk is inside of. */
  function Open(seen: set<string>, order: seq<string>): set<string> {
    set x | x in seen && x !in order
  }

  /** Every dependency of a component in the order has been seen. */
  ghost predicate DepsSeen(g: Graph, order: seq<string>, seen: set<string>) {
    forall a, b :: a in order && Edge(g, a, b) ==> b in seen
  }

  /** Every dependency of a component in the order stands before it. */
  ghost predicate DepsFirst(g: Graph, order: seq<string>) {
    forall k, b :: 0 <= k < |order| && Edge(g, order[k], b) ==> b in order[..k]
  }

  /** What holds of `seen` and `order` at any point of the walk. */
  ghost predicate Walked(g: Graph, seen: set<string>, order: seq<string>) {
    && seen <= g.Keys
    && Distinct(order) && (forall x :: x in order ==> x in seen)
    && DepsSeen(g, order, seen)
    && (Acyclic(g) ==> DepsFirst(g, order))
  }

  /** From every component the walk is inside of, n can be reached. */
  ghost predicate Inside(g: Graph, open: set<string>, n: string) {
    forall x :: x in open ==> Reaches(g, x, n)
  }

  /** A call that walked from n: it added only what n reaches, and closed nothing it found open. */
  ghost predicate Added(g: Graph, n: string, seen0: set<string>, order0: seq<string>, seen: set<string>, order: seq<string>) {
    && Walked(g, seen, order) && seen0 <= seen && order0 <= order
    && Open(seen, order) == Open(seen0, order0)
    && forall x :: x in seen - seen0 ==> Reaches(g, n, x)
  }

  lemma Enter(g: Graph, n: string, seen0: set<string>, order: seq<string>)
    requires Walked(g, seen0, order) && Inside(g, Open(seen0, order), n) && n in g && n !in seen0
    ensures var seen := seen0 + {n};
            && Open(seen, order) == Open(seen0, order) + {n}
            && Walked(g, seen, order) && Inside(g, Open(seen, order), n)
  {
    ReachesSelf(g, n);
  }

  lemma Leave(g: Graph, n: string, seen0: set<string>, order0: seq<string>, seen: set<string>, order: seq<string>)
    requires Walked(g, seen0, order0) && Inside(g, Open(seen0, order0), n) && n in g && n !in seen0
    requires Open(seen0 + {n}, order0) == Open(seen0, order0) + {n}
    requires Added(g, n, seen0 + {n}, order0, seen, order)
    requires forall b :: Edge(g, n, b) ==> b in seen
    ensures Added(g, n, seen0, order0, seen, order + [n])
  {
    var open := Open(seen0, order0);
    assert n in Open(seen, order);
    Append(g, n, seen, order, open);
    ReachesSelf(g, n);
    forall x ensures x in Open(seen, order + [n]) <==> x in open {
      assert x in Open(seen, order) <==> x in open + {n};
    }
  }

  /** n itself goes behind its dependencies. */
  lemma Append(g: Graph, n: string, seen: set<string>, order: seq<string>, open: set<string>)
    requires Walked(g, seen, order) && n in g && n in seen && n !in order
    requires Open(seen, order) == open + {n} && Inside(g, open, n)
    requires forall b :: Edge(g, n, b) ==> b in seen
    ensures Walked(g, seen, order + [n])
  {
    var after := order + [n];
    if Acyclic(g) {
      ReachesSelf(g, n);
      forall k, b | 0 <= k < |after| && Edge(g, after[k], b) ensures b in after[..k] {
        if k < |order| {
          assert after[k] == order[k] && after[..k] == order[..k];
        } else {
          assert after[..k] == order;
          assert b in open + {n} ==> Reaches(g, b, n);
        }
      }
    }
    forall x, b | x in after && Edge(g, x, b) ensures b in seen {
      assert x in order || x == n;
    }
  }

  lemma SmallerSet(a: set<string>, b: set<string>)
    requires a < b
    ensures |a| < |b|
  {
    assert b == a + (b - a) && b - a != {};
  }

  lemma SmallerOrEqual(a: set<string>, b: set<string>)
    requires a <= b
    ensures |a| <= |b|
  {
    if a != b {
      SmallerSet(a, b);
    }
  }

  class Walk {
    const g: Graph
    var seen: set<string>
    var order: seq<string>

    constructor (g: Graph)
      ensures this.g == g && seen == {} && order == []
    {
      this.g := g;
      seen := {};
      order := [];
    }

    /** `visit`: false is the exit for a component that does not exist. */
    method Visit(n: string) returns (ok: bool)
      requires Walked(g, seen, order) && Inside(g, Open(seen, order), n)
      modifies this
      ensures ok <==> n in g
      ensures if ok then n in seen && Added(g, n, old(seen), old(order), seen, order)
              else seen == old(seen) && order == old(order)
      decreases |g.Keys - seen|, 0
    {
      if n in seen {
        return true;
      }
      if n !in g {
        return false;
      }
      ghost var seen0, order0 := seen, order;
      seen := seen + {n};
      Enter(g, n, seen0, order0);
      SmallerSet(g.Keys - seen, g.Keys - seen0);
      VisitDeps(n);
      Leave(g, n, seen0, order0, seen, order);
      order := order + [n];
      return true;
    }

    /** The dependency loop of `visit`. */
    method VisitDeps(n: string)
      requires Walked(g, seen, order) && n in g && Inside(g, Open(seen, order), n)
      modifies this
      ensures Added(g, n, old(seen), old(order), seen, order)
      ensures forall b :: Edge(g, n, b) ==> b in seen
      decreases |g.Keys - seen|, 2
    {
      var deps := g[n].deps;
      var k := 0;
      while k < |deps|
        invariant 0 <= k <= |deps|
        invariant Added(g, n, old(seen), old(order), seen, order)
        invariant forall j :: 0 <= j < k && deps[j] in g ==> deps[j] in seen
      {
        if deps[k] in g {
          VisitDep(n, deps[k], old(seen), old(order));
        }
        k := k + 1;
      }
    }

    method VisitDep(n: string, d: string, ghost seen0: set<string>, ghost order0: seq<string>)
      requires Edge(g, n, d) && Added(g, n, seen0, order0, seen, order) && Inside(g, Open(seen0, order0), n)
      modifies this
      ensures Added(g, n, seen0, order0, seen, order) && d in seen && old(seen) <= seen
      decreases |g.Keys - seen0|, 1
    {
      ghost var seen1, order1 := seen, order;
      SmallerOrEqual(g.Keys - seen, g.Keys - seen0);
      ReachesSelf(g, d);
      ReachesStep(g, n, d, d);
      forall x | x in Open(seen, order) ensures Reaches(g, x, d) {
        ReachesTrans(g, x, n, d);
      }
      var ok := Visit(d);
      forall x | x in seen - seen0 ensures Reaches(g, n, x) {
        if x !in seen1 {
          ReachesStep(g, n, d, x);
        }
      }
    }
  }

  // ----- The closure -----

  function LibOf(g: Graph, n: string): seq<string> {
    if n in g && g[n].lib.Some? && g[n].lib.value != "" then [g[n].lib.value] else []
  }

  /** The libraries of an order, the last component first. */
  function Libs(g: Graph, order: seq<string>): seq<string> {
    if order == [] then [] else LibOf(g, order[|order| - 1]) + Libs(g, order[..|order| - 1])
  }

  lemma {:induction false} LibsAppend(g: Graph, a: seq<string>, b: seq<string>)
    ensures Libs(g, a + b) == Libs(g, b) + Libs(g, a)
    decreases |b|
  {
    if b == [] {
      assert a + b == a;
    } else {
      assert (a + b)[..|a + b| - 1] == a + b[..|b| - 1];
      LibsAppend(g, a, b[..|b| - 1]);
    }
  }

  /** The libraries are those that the components of the order have. */
  lemma {:induction false} LibsAre(g: Graph, order: seq<string>)
    ensures forall lib :: lib in Libs(g, order) <==> lib != "" && exists n :: n in order && n in g && g[n].lib == Some(lib)
    decreases |order|
  {
    if order != [] {
      var n, front := order[|order| - 1], order[..|order| - 1];
      LibsAre(g, front);
      assert order == front + [n];
      forall lib ensures lib in Libs(g, order) <==> lib in LibOf(g, n) || lib in Libs(g, front) {
      }
    }
  }

  /** In the link order, a component's library comes before that of anything it depends on. */
  lemma DependentFirst(g: Graph, order: seq<string>, i: nat, j: nat)
    requires DepsFirst(g, order) && Distinct(order) && i < |order| && j < |order| && Edge(g, order[i], order[j])
    ensures j < i
    ensures Libs(g, order) == Libs(g, order[i + 1..]) + LibOf(g, order[i])
                              + (Libs(g, order[j + 1..i]) + LibOf(g, order[j]) + Libs(g, order[..j]))
  {
    assert order[j] in order[..i];
    var k :| 0 <= k < i && order[k] == order[j];
    assert k == j;
    LibsAround(g, order, i);
    LibsAround(g, order[..i], j);
    assert order[..i][j + 1..] == order[j + 1..i] && order[..i][..j] == order[..j];
  }

  lemma LibsAround(g: Graph, order: seq<string>, i: nat)
    requires i < |order|
    ensures Libs(g, order) == Libs(g, order[i + 1..]) + LibOf(g, order[i]) + Libs(g, order[..i])
  {
    var front, n, back := order[..i], order[i], order[i + 1..];
    assert order == (front + [n]) + back;
    LibsAppend(g, front + [n], back);
    LibsLast(g, front + [n], front, n);
    assert Libs(g, back) + (LibOf(g, n) + Libs(g, front)) == Libs(g, back) + LibOf(g, n) + Libs(g, front);
  }

  lemma LibsLast(g: Graph, xs: seq<string>, front: seq<string>, n: string)
    requires xs == front + [n]
    ensures Libs(g, xs) == LibOf(g, n) + Libs(g, front)
  {
    assert xs[..|xs| - 1] == front;
  }

  lemma LibsBefore(g: Graph, libs: seq<string>, xs: seq<string>, i: nat)
    requires i < |xs|
    ensures libs + Libs(g, xs[..i + 1]) == (libs + LibOf(g, xs[i])) + Libs(g, xs[..i])
  {
    LibsLast(g, xs[..i + 1], xs[..i], xs[i]);
  }

  /** The walk from every name. */
  method WalkAll(g: Graph, names: seq<string>) returns (missing: Option<string>, order: seq<string>)
    ensures missing.Some? <==> exists k :: 0 <= k < |names| && names[k] !in g
    ensures missing.Some? ==> FirstMissing(g, names, missing.value)
    ensures missing.None? ==> Distinct(order) && (Acyclic(g) ==> DepsFirst(g, order))
    ensures missing.None? ==> forall x :: x in order <==> ReachedFrom(g, names, x)
  {
    hide Acyclic, Reaches, ReachedFrom;
    var w := new Walk(g);
    var k := 0;
    while k < |names|
      invariant 0 <= k <= |names| && w.g == g && fresh(w)
      invariant Walked(g, w.seen, w.order) && Open(w.seen, w.order) == {}
      invariant forall j :: 0 <= j < k ==> names[j] in g && names[j] in w.seen
      invariant OnlyReached(g, names, w.seen)
    {
      ghost var was := w.seen;
      var ok := w.Visit(names[k]);
      if !ok {
        return Some(names[k]), [];
      }
      MoreReached(g, names, k, was, w.seen);
      k := k + 1;
    }
    NoneOpen(w.seen, w.order);
    ReachedIsSeen(g, names, w.seen, w.order);
    return None, w.order;
  }

  ghost predicate OnlyReached(g: Graph, names: seq<string>, seen: set<string>) {
    forall x :: x in seen ==> ReachedFrom(g, names, x)
  }

  lemma MoreReached(g: Graph, names: seq<string>, k: nat, was: set<string>, seen: set<string>)
    requires OnlyReached(g, names, was) && k < |names|
    requires forall x :: x in seen - was ==> Reaches(g, names[k], x)
    ensures OnlyReached(g, names, seen)
  {
    forall x | x in seen ensures ReachedFrom(g, names, x) {
      if x !in was {
        assert Reaches(g, names[k], x);
      }
    }
  }

  ghost predicate FirstMissing(g: Graph, names: seq<string>, n: string) {
    exists k :: 0 <= k < |names| && names[k] == n && n !in g && forall j :: 0 <= j < k ==> names[j] in g
  }

  lemma NoneOpen(seen: set<string>, order: seq<string>)
    requires Open(seen, order) == {} && forall x :: x in order ==> x in seen
    ensures forall x :: x in order <==> x in seen
  {
    forall x | x in seen ensures x in order {
      assert x !in Open(seen, order);
    }
  }

  /** `closure`: the libraries of exactly the components the names reach, each component
      once; on an acyclic graph in link order. A name that does not exist is the error. */
  method Closure(g: Graph, names: seq<string>) returns (r: Result<seq<string>, string>, ghost order: seq<string>)
    ensures r.Err? <==> exists k :: 0 <= k < |names| && names[k] !in g
    ensures r.Err? ==> FirstMissing(g, names, r.error)
    ensures r.Ok? ==> r.value == Libs(g, order) && Distinct(order) && (Acyclic(g) ==> DepsFirst(g, order))
    ensures r.Ok? ==> forall x :: x in order <==> ReachedFrom(g, names, x)
    ensures r.Ok? ==>
              forall lib :: lib in r.value <==>
                lib != "" && exists n :: ReachedFrom(g, names, n) && n in g && g[n].lib == Some(lib)
  {
    hide Acyclic, DepsFirst, Distinct, ReachedFrom, FirstMissing, LibOf;
    var missing, walked := WalkAll(g, names);
    order := walked;
    if missing.Some? {
      return Err(missing.value), order;
    }
    var libs: seq<string> := [];
    var i := |walked|;
    assert walked[..i] == walked;
    while i > 0
      invariant 0 <= i <= |walked|
      invariant libs + Libs(g, walked[..i]) == [] + Libs(g, walked)
    {
      i := i - 1;
      LibsBefore(g, libs, walked, i);
      libs := libs + LibOf(g, walked[i]);
    }
    assert walked[..0] == [] && libs + [] == libs && [] + Libs(g, walked) == Libs(g, walked);
    LibsAre(g, walked);
    return Ok(libs), order;
  }

  lemma ReachedIsSeen(g: Graph, names: seq<string>, seen: set<string>, order: seq<string>)
    requires Walked(g, seen, order) && (forall x :: x in order <==> x in seen)
    requires forall k :: 0 <= k < |names| ==> names[k] in seen
    ensures forall x :: ReachedFrom(g, names, x) ==> x in seen
  {
    forall x | ReachedFrom(g, names, x) ensures x in seen {
      var k :| 0 <= k < |names| && Reaches(g, names[k], x);
      var p :| Path(g, p) && p[0] == names[k] && p[|p| - 1] == x;
      ClosedHolds(g, seen, p);
    }
  }
}
