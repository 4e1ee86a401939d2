/**
 Dot-segment removal and relative resolution of crates/wasix-net/src/http/url.rs, against
 the rewriting rules of section 5.2.4 of RFC 3986.
 */
module UrlPath {
  import opened Bytes
  import opened Text

  /** `join("/")`. */
  function Join(xs: seq<string>): string {
    if xs == [] then "" else if |xs| == 1 then xs[0] else xs[0] + "/" + Join(xs[1..])
  }

  /** `split_once('?')`: the part before the question mark, and the one from it on. */
  function BeforeQuery(s: string): string {
    s[..IndexOf(s, '?')]
  }

  function QueryOf(s: string): string {
    s[IndexOf(s, '?')..]
  }

  // ----- Section 5.2.4 of RFC 3986 -----

  predicate StartsWith(s: string, prefix: string) {
    prefix <= s
  }

  /** Removes the last segment and the slash before it, if there is one. */
  function DropLast(output: string): string {
    match LastIndexOf(output, '/')
    case None => ""
    case Some(k) => output[..k]
  }

  /** One application of the rules A to E to a non-empty input. */
  function Rule(input: string, output: string): (r: (string, string))
    requires input != ""
    ensures |r.0| < |input|
  {
    if StartsWith(input, "../") then (input[3..], output)                   // A
    else if StartsWith(input, "./") then (input[2..], output)
    else if StartsWith(input, "/./") then (input[2..], output)              // B
    else if input == "/." then ("/", output)
    else if StartsWith(input, "/../") then (input[3..], DropLast(output))   // C
    else if input == "/.." then ("/", DropLast(output))
    else if input == "." || input == ".." then ("", output)                 // D
    else                                                                    // E
      var n := 1 + IndexOf(input[1..], '/');
      (input[n..], output + input[..n])
  }

  /** The rules, applied until the input is empty. */
  function RemoveDotSegments(input: string, output: string): string
    decreases |input|
  {
    if input == "" then output
    else
      var (rest, out) := Rule(input, output);
      RemoveDotSegments(rest, out)
  }

  // ----- The code -----

  predicate Plain(segment: string) {
    '/' !in segment
  }

  predicate AllPlain(segments: seq<string>) {
    forall k :: 0 <= k < |segments| ==> Plain(segments[k])
  }

  /** A path of the given segments, each after a slash. */
  function Slashed(segments: seq<string>): string {
    if segments == [] then "" else "/" + segments[0] + Slashed(segments[1..])
  }

  function Pop(out: seq<string>): seq<string> {
    if out == [] then [] else out[..|out| - 1]
  }

  /** What one segment does to the stack of `normalize`. */
  function Push(s: string, last: bool, out: seq<string>): seq<string> {
    if s == "." then (if last then out + [""] else out)
    else if s == ".." then (if last then Pop(out) + [""] else Pop(out))
    else out + [s]
  }

  function Stack(segments: seq<string>, out: seq<string>): seq<string>
    decreases |segments|
  {
    if segments == [] then out else Stack(segments[1..], Push(segments[0], |segments| == 1, out))
  }

  /** `normalize`, whatever stands before the first slash being skipped. */
  function Normalize(path: string): string {
    "/" + Join(Stack(Split(BeforeQuery(path), '/')[1..], [])) + QueryOf(path)
  }

  method NormalizePath(path: string) returns (result: string)
    ensures result == Normalize(path)
  {
    var query := QueryOf(path);
    var segments := Split(BeforeQuery(path), '/')[1..];
    var out: seq<string> := [];
    var i := 0;
    ghost var rest := segments;
    while i < |segments|
      invariant 0 <= i <= |segments| && rest == segments[i..]
      invariant Stack(rest, out) == Stack(segments, [])
    {
      var seg := segments[i];
      var last := i + 1 == |segments|;
      if seg == "." {
        if last {
          out := out + [""];
        }
      } else if seg == ".." {
        out := Pop(out);
        if last {
          out := out + [""];
        }
      } else {
        out := out + [seg];
      }
      rest := rest[1..];
      i := i + 1;
    }
    result := "/" + Join(out) + query;
  }

  // ----- The code follows the rules -----

  lemma {:induction false} SlashedSplit(s: string)
    ensures Slashed(Split(s, '/')) == "/" + s && AllPlain(Split(s, '/'))
    decreases |s|
  {
    var k := IndexOf(s, '/');
    if k == |s| {
      assert Slashed([s]) == "/" + s + Slashed([s][1..]);
    } else {
      var rest := s[k + 1..];
      SlashedSplit(rest);
      var all := Split(s, '/');
      assert all[1..] == Split(rest, '/');
      assert s == s[..k] + "/" + rest;
      assert "/" + s[..k] + ("/" + rest) == "/" + s;
    }
  }

  /** An absolute path is its segments, each after a slash. */
  lemma AbsoluteSplit(p: string)
    requires p != "" && p[0] == '/'
    ensures var segments := Split(p, '/')[1..];
            segments != [] && Slashed(segments) == p && AllPlain(segments)
  {
    assert IndexOf(p, '/') == 0;
    assert Split(p, '/') == [""] + Split(p[1..], '/');
    SlashedSplit(p[1..]);
    assert "/" + p[1..] == p;
  }

  lemma {:induction false} SlashedAppend(a: seq<string>, b: seq<string>)
    ensures Slashed(a + b) == Slashed(a) + Slashed(b)
  {
    if a == [] {
      assert a + b == b;
    } else {
      assert (a + b)[1..] == a[1..] + b;
      SlashedAppend(a[1..], b);
    }
  }

  lemma SlashedOne(s: string)
    ensures Slashed([s]) == "/" + s
  {
    assert [s][1..] == [];
  }

  lemma {:induction false} SlashedJoin(out: seq<string>)
    requires out != []
    ensures "/" + Join(out) == Slashed(out)
  {
    if |out| == 1 {
      SlashedOne(out[0]);
      assert out == [out[0]];
    } else {
      SlashedJoin(out[1..]);
    }
  }

  /** Dropping the last segment of a path pops it from its segments. */
  lemma DropLastPops(out: seq<string>)
    requires AllPlain(out)
    ensures DropLast(Slashed(out)) == Slashed(Pop(out))
  {
    if out != [] {
      var front, s := out[..|out| - 1], out[|out| - 1];
      assert out == front + [s];
      SlashedAppend(front, [s]);
      SlashedOne(s);
      var whole := Slashed(out);
      var k := |Slashed(front)|;
      assert whole == Slashed(front) + ("/" + s);
      forall j | k < j < |whole| ensures whole[j] != '/' {
        assert whole[j] == s[j - k - 1];
      }
      LastIndexUnique(whole, '/', k);
    }
  }

  /** What may follow a segment: nothing, or the slash of the next one. */
  predicate Follows(rest: string) {
    rest == "" || rest[0] == '/'
  }

  lemma DotRule(rest: string, output: string)
    requires Follows(rest)
    ensures Rule("/." + rest, output) == (if rest == "" then "/" else rest, output)
  {
    var input := "/." + rest;
    assert input[0] == '/' && input[1] == '.';
    assert input[2..] == rest;
    if rest != "" {
      assert input[2] == '/';
    } else {
      assert input == "/.";
    }
  }

  lemma DotDotRule(rest: string, output: string)
    requires Follows(rest)
    ensures Rule("/.." + rest, output) == (if rest == "" then "/" else rest, DropLast(output))
  {
    var input := "/.." + rest;
    assert input[0] == '/' && input[1] == '.' && input[2] == '.';
    assert input[3..] == rest;
    if rest != "" {
      assert input[3] == '/';
    } else {
      assert input == "/..";
    }
  }

  lemma SegmentRule(s: string, rest: string, output: string)
    requires Plain(s) && s != "." && s != ".." && Follows(rest)
    ensures Rule("/" + s + rest, output) == (rest, output + ("/" + s))
  {
    var input := "/" + s + rest;
    NotDots(s, rest, input);
    assert input[0] == '/' && input[1..] == s + rest;
    IndexUnique(input[1..], '/', |s|);
    assert input[1 + |s|..] == rest && input[..1 + |s|] == "/" + s;
  }

  lemma OnlyDotLooksLikeDot(s: string, rest: string, input: string)
    requires Plain(s) && Follows(rest) && input == "/" + s + rest
    requires StartsWith(input, "/./") || input == "/."
    ensures s == "."
  {
    assert forall k :: 1 <= k <= |s| ==> input[k] == s[k - 1] && input[k] != '/';
    assert rest != "" ==> input[1 + |s|] == '/';
    assert input[1] == '.' && (|input| == 2 || input[2] == '/');
    assert |s| == 1 && s[0] == input[1];
  }

  lemma OnlyDotsLookLikeDots(s: string, rest: string, input: string)
    requires Plain(s) && Follows(rest) && input == "/" + s + rest
    requires StartsWith(input, "/../") || input == "/.."
    ensures s == ".."
  {
    assert forall k :: 1 <= k <= |s| ==> input[k] == s[k - 1] && input[k] != '/';
    assert rest != "" ==> input[1 + |s|] == '/';
    assert input[1] == '.' && input[2] == '.' && (|input| == 3 || input[3] == '/');
    assert |s| == 2 && s[0] == input[1] && s[1] == input[2];
  }

  lemma NotDots(s: string, rest: string, input: string)
    requires Plain(s) && s != "." && s != ".." && Follows(rest) && input == "/" + s + rest
    ensures !StartsWith(input, "/./") && input != "/." && !StartsWith(input, "/../") && input != "/.."
  {
    if StartsWith(input, "/./") || input == "/." {
      OnlyDotLooksLikeDot(s, rest, input);
    }
    if StartsWith(input, "/../") || input == "/.." {
      OnlyDotsLookLikeDots(s, rest, input);
    }
  }

  lemma LoneSlash(output: string)
    ensures RemoveDotSegments("/", output) == output + "/"
  {
    var input := "/";
    assert input[1..] == "" && input[..1] == "/";
    assert input[0] == '/' && |input| == 1;
    assert Rule(input, output) == ("", output + "/");
  }

  lemma SlashedFollows(segments: seq<string>)
    ensures Follows(Slashed(segments))
  {
  }

  lemma PushPlain(s: string, last: bool, out: seq<string>)
    requires Plain(s) && AllPlain(out)
    ensures AllPlain(Push(s, last, out))
  {
  }

  lemma DotFollowsRules(tail: seq<string>, out: seq<string>)
    requires Follows(Slashed(tail)) && (tail == [] <==> Slashed(tail) == "")
    ensures RemoveDotSegments("/." + Slashed(tail), Slashed(out))
            == RemoveDotSegments(Slashed(tail), Slashed(Push(".", tail == [], out)))
  {
    hide Slashed, Rule;
    DotRule(Slashed(tail), Slashed(out));
    LoneSlash(Slashed(out));
    SlashedOne("");
    SlashedAppend(out, [""]);
  }

  lemma DotDotFollowsRules(tail: seq<string>, out: seq<string>)
    requires AllPlain(out) && Follows(Slashed(tail)) && (tail == [] <==> Slashed(tail) == "")
    ensures RemoveDotSegments("/.." + Slashed(tail), Slashed(out))
            == RemoveDotSegments(Slashed(tail), Slashed(Push("..", tail == [], out)))
  {
    hide Slashed, Rule, DropLast, Pop;
    DotDotRule(Slashed(tail), Slashed(out));
    DropLastPops(out);
    LoneSlash(Slashed(Pop(out)));
    SlashedOne("");
    SlashedAppend(Pop(out), [""]);
  }

  /** The rules take one segment of an absolute input the way the stack does. */
  lemma SegmentFollowsRules(s: string, tail: seq<string>, out: seq<string>)
    requires Plain(s) && AllPlain(out)
    ensures RemoveDotSegments("/" + s + Slashed(tail), Slashed(out))
            == RemoveDotSegments(Slashed(tail), Slashed(Push(s, tail == [], out)))
  {
    var rest := Slashed(tail);
    SlashedFollows(tail);
    assert (tail == []) == (rest == "");
    hide Slashed, Rule, AllPlain, Follows;
    if s == "." {
      assert "/" + s == "/.";
      DotFollowsRules(tail, out);
    } else if s == ".." {
      assert "/" + s == "/..";
      DotDotFollowsRules(tail, out);
    } else {
      SegmentRule(s, rest, Slashed(out));
      SlashedOne(s);
      SlashedAppend(out, [s]);
    }
  }

  lemma {:induction false} StackFollowsRules(segments: seq<string>, out: seq<string>)
    requires AllPlain(segments) && AllPlain(out)
    ensures RemoveDotSegments(Slashed(segments), Slashed(out)) == Slashed(Stack(segments, out))
    decreases |segments|
  {
    if segments != [] {
      var s, tail := segments[0], segments[1..];
      SegmentFollowsRules(s, tail, out);
      PushPlain(s, tail == [], out);
      StackFollowsRules(tail, Push(s, tail == [], out));
    }
  }

  /** A segment that is neither `.` nor `..`. */
  predicate Kept(s: string) {
    s != "." && s != ".."
  }

  predicate AllKept(segments: seq<string>) {
    forall k :: 0 <= k < |segments| ==> Kept(segments[k])
  }

  lemma {:induction false} StackKeeps(segments: seq<string>, out: seq<string>)
    requires AllPlain(segments) && AllPlain(out) && AllKept(out)
    ensures AllPlain(Stack(segments, out)) && AllKept(Stack(segments, out))
    ensures segments != [] ==> Stack(segments, out) != []
    decreases |segments|
  {
    if segments != [] {
      StackKeeps(segments[1..], Push(segments[0], |segments| == 1, out));
    }
  }

  lemma {:induction false} StackIdle(segments: seq<string>, out: seq<string>)
    requires AllKept(segments)
    ensures Stack(segments, out) == out + segments
    decreases |segments|
  {
    if segments != [] {
      StackIdle(segments[1..], out + [segments[0]]);
      assert out + [segments[0]] + segments[1..] == out + segments;
    }
  }

  /** The segments left after normalising the path before the query. */
  function SegmentsOf(path: string): seq<string> {
    Stack(Split(BeforeQuery(path), '/')[1..], [])
  }

  predicate Absolute(path: string) {
    path != "" && path[0] == '/'
  }

  lemma AbsolutePath(path: string)
    requires Absolute(path)
    ensures Absolute(BeforeQuery(path)) && path == BeforeQuery(path) + QueryOf(path)
    ensures SegmentsOf(path) != [] && AllPlain(SegmentsOf(path)) && AllKept(SegmentsOf(path))
    ensures Normalize(path) == Slashed(SegmentsOf(path)) + QueryOf(path)
  {
    var p := BeforeQuery(path);
    assert IndexOf(path, '?') > 0;
    AbsoluteSplit(p);
    StackKeeps(Split(p, '/')[1..], []);
    SlashedJoin(SegmentsOf(path));
  }

  /** On every absolute path, `normalize` is the rewriting of section 5.2.4 on the part before
      the query, and leaves the query alone. */
  lemma NormalizeFollowsRules(path: string)
    requires Absolute(path)
    ensures Normalize(path) == RemoveDotSegments(BeforeQuery(path), "") + QueryOf(path)
  {
    AbsolutePath(path);
    var p := BeforeQuery(path);
    AbsoluteSplit(p);
    StackFollowsRules(Split(p, '/')[1..], []);
  }

  lemma {:induction false} SplitSlashed(segments: seq<string>)
    requires segments != [] && AllPlain(segments)
    ensures Split(Slashed(segments), '/') == [""] + segments
    decreases |segments|
  {
    SplitAfterSlash(segments);
    var p := Slashed(segments);
    assert IndexOf(p, '/') == 0 && p[..0] == "";
  }

  lemma FirstSegment(s: string, rest: string)
    requires Plain(s) && Follows(rest)
    ensures Split(s + rest, '/') == if rest == "" then [s] else [s] + Split(rest[1..], '/')
  {
    IndexUnique(s + rest, '/', |s|);
    if rest == "" {
      assert s + rest == s;
    } else {
      assert (s + rest)[..|s|] == s && (s + rest)[|s| + 1..] == rest[1..];
    }
  }

  lemma SlashedTail(segments: seq<string>)
    requires segments != []
    ensures Slashed(segments) != "" && Slashed(segments)[1..] == segments[0] + Slashed(segments[1..])
    ensures segments[1..] == [] <==> Slashed(segments[1..]) == ""
  {
    BehindSlash(segments[0], Slashed(segments[1..]));
  }

  lemma BehindSlash(s: string, rest: string)
    ensures ("/" + s + rest)[1..] == s + rest
  {
  }

  /** Behind its first slash, a path splits into its segments. */
  lemma {:induction false} SplitAfterSlash(segments: seq<string>)
    requires segments != [] && AllPlain(segments)
    ensures Split(Slashed(segments)[1..], '/') == segments
    decreases |segments|
  {
    hide Split, Slashed;
    var s, tail := segments[0], segments[1..];
    SlashedTail(segments);
    SlashedFollows(tail);
    FirstSegment(s, Slashed(tail));
    if tail == [] {
      assert segments == [s];
    } else {
      SplitAfterSlash(tail);
      assert [s] + tail == segments;
    }
  }

  lemma {:induction false} NoQuestionMark(segments: seq<string>)
    requires forall k :: 0 <= k < |segments| ==> '?' !in segments[k]
    ensures '?' !in Slashed(segments)
  {
    if segments != [] {
      NoQuestionMark(segments[1..]);
    }
  }

  lemma {:induction false} StackParts(segments: seq<string>, out: seq<string>)
    requires forall k :: 0 <= k < |segments| ==> '?' !in segments[k]
    requires forall k :: 0 <= k < |out| ==> '?' !in out[k]
    ensures forall k :: 0 <= k < |Stack(segments, out)| ==> '?' !in Stack(segments, out)[k]
    decreases |segments|
  {
    if segments != [] {
      StackParts(segments[1..], Push(segments[0], |segments| == 1, out));
    }
  }

  /** Normalising once is enough, and leaves no dot segment. */
  lemma NormalizeIdempotent(path: string)
    requires Absolute(path)
    ensures Absolute(Normalize(path)) && Normalize(Normalize(path)) == Normalize(path)
    ensures AllKept(Split(BeforeQuery(Normalize(path)), '/'))
  {
    AbsolutePath(path);
    var segments := SegmentsOf(path);
    var n := Normalize(path);
    NormalizedQuery(path);
    SplitSlashed(segments);
    StackIdle(segments, []);
    assert ([""] + segments)[1..] == segments && [] + segments == segments;
    AbsolutePath(n);
  }

  lemma NormalizedQuery(path: string)
    requires Absolute(path)
    ensures Absolute(Normalize(path))
    ensures BeforeQuery(Normalize(path)) == Slashed(SegmentsOf(path)) && QueryOf(Normalize(path)) == QueryOf(path)
  {
    AbsolutePath(path);
    var p := BeforeQuery(path);
    assert '?' !in p;
    SplitParts(p, '/');
    StackParts(Split(p, '/')[1..], []);
    var q := Slashed(SegmentsOf(path));
    NoQuestionMark(SegmentsOf(path));
    var n := Normalize(path);
    assert n == q + QueryOf(path);
    IndexUnique(n, '?', |q|);
  }

  // ----- Relative references -----

  /** The directory of a path: everything up to its last slash. */
  function Directory(path: string): string {
    match LastIndexOf(path, '/')
    case None => path[..if path == "" then 0 else 1]
    case Some(k) => path[..k + 1]
  }

  /** The path `join` hands to `normalize`, for a location with neither scheme nor host. */
  function Merged(base: string, location: string): string {
    if location == "" then base
    else if location[0] == '/' then location
    else if location[0] == '?' then BeforeQuery(base) + location
    else Directory(BeforeQuery(base)) + location
  }

  function JoinPath(base: string, location: string): string {
    Normalize(Merged(base, location))
  }

  /** Path and query of the target of a reference with neither scheme nor authority, by section
      5.2.2 of RFC 3986. */
  function Resolve(base: string, location: string): string {
    var path := BeforeQuery(location);
    if path == "" then BeforeQuery(base) + (if location == "" then QueryOf(base) else QueryOf(location))
    else if path[0] == '/' then RemoveDotSegments(path, "") + QueryOf(location)
    else RemoveDotSegments(Directory(BeforeQuery(base)) + path, "") + QueryOf(location)
  }

  lemma QueryParts(front: string, s: string)
    requires '?' !in front
    ensures BeforeQuery(front + s) == front + BeforeQuery(s) && QueryOf(front + s) == QueryOf(s)
  {
    IndexUnique(front + s, '?', |front| + IndexOf(s, '?'));
  }

  /** The directory of an absolute path ends in its last slash. */
  lemma DirectoryExact(path: string)
    requires Absolute(path)
    ensures var d := Directory(path);
            d != "" && d <= path && d[|d| - 1] == '/' && '/' !in path[|d|..]
  {
    assert path[0] in path;
  }

  lemma DirectoryAbsolute(path: string)
    requires Absolute(path)
    ensures Absolute(Directory(path)) && Directory(path) <= path
  {
    assert path[0] in path;
  }

  lemma MergedAbsolute(base: string, location: string)
    requires Absolute(base)
    ensures Absolute(Merged(base, location))
  {
    AbsolutePath(base);
    DirectoryAbsolute(BeforeQuery(base));
  }

  /** Joined paths keep the leading slash, hold no dot segment, and take their query from the
      location, or from the base when the location is empty. */
  lemma JoinedPath(base: string, location: string)
    requires Absolute(base)
    ensures Absolute(JoinPath(base, location)) && AllKept(Split(BeforeQuery(JoinPath(base, location)), '/'))
    ensures QueryOf(JoinPath(base, location)) == QueryOf(if location == "" then base else location)
  {
    MergedAbsolute(base, location);
    NormalizeIdempotent(Merged(base, location));
    NormalizedQuery(Merged(base, location));
    var front := BeforeQuery(base);
    if location != "" && location[0] == '?' {
      QueryParts(front, location);
    } else if location != "" && location[0] != '/' {
      AbsolutePath(base);
      DirectoryAbsolute(front);
      QueryParts(Directory(front), location);
    }
  }

  /** A location with neither scheme nor authority, but a path of its own, is resolved as the
      standard says. */
  lemma JoinResolves(base: string, location: string)
    requires Absolute(base) && BeforeQuery(location) != ""
    ensures JoinPath(base, location) == Resolve(base, location)
  {
    assert location[0] == BeforeQuery(location)[0];
    MergedAbsolute(base, location);
    NormalizeFollowsRules(Merged(base, location));
    if location[0] != '/' {
      AbsolutePath(base);
      DirectoryAbsolute(BeforeQuery(base));
      QueryParts(Directory(BeforeQuery(base)), location);
    }
  }

  /** `normalize` changes an absolute path exactly when it holds a dot segment. */
  lemma NormalizeFixes(path: string)
    requires Absolute(path)
    ensures Normalize(path) == path <==> AllKept(Split(BeforeQuery(path), '/'))
  {
    AbsolutePath(path);
    var p := BeforeQuery(path);
    AbsoluteSplit(p);
    var segments := Split(p, '/')[1..];
    if AllKept(Split(p, '/')) {
      StackIdle(segments, []);
      assert [] + segments == segments;
    }
    NormalizeIdempotent(path);
  }

  /** A location that is empty or only a query also has the base's dot segments removed, which
      the standard does not ask for: the two agree exactly when the base path holds none. */
  lemma JoinOfQuery(base: string, location: string)
    requires Absolute(base) && BeforeQuery(location) == ""
    ensures JoinPath(base, location) == Resolve(base, location) <==> AllKept(Split(BeforeQuery(base), '/'))
  {
    AbsolutePath(base);
    MergedAbsolute(base, location);
    var front := BeforeQuery(base);
    if location != "" {
      assert location[0] == '?';
      QueryParts(front, location);
    }
    NormalizeFixes(Merged(base, location));
  }

  lemma SlashedCons(s: string, tail: seq<string>)
    ensures Slashed([s] + tail) == "/" + s + Slashed(tail)
  {
    assert ([s] + tail)[1..] == tail;
  }

  lemma StackCons(s: string, tail: seq<string>, out: seq<string>)
    ensures Stack([s] + tail, out) == Stack(tail, Push(s, tail == [], out))
  {
    assert ([s] + tail)[1..] == tail;
  }

  lemma DottedSegments()
    ensures Slashed(["a", "..", "b"]) == "/a/../b" && Stack(["a", "..", "b"], []) == ["b"]
  {
    hide Slashed, Stack;
    var b: seq<string>, dots, all := ["b"], ["..", "b"], ["a", "..", "b"];
    assert b == ["b"] + [] && dots == [".."] + b && all == ["a"] + dots;
    SlashedOne("b");
    SlashedCons("..", b);
    SlashedCons("a", dots);
    StackCons("a", dots, []);
    StackCons("..", b, ["a"]);
    StackCons("b", [], []);
    assert [] + ["a"] == ["a"] && Pop(["a"]) == [] && [] + ["b"] == ["b"];
    assert Stack([], ["b"]) == ["b"] by { StackNothing(["b"]); }
  }

  lemma StackNothing(out: seq<string>)
    ensures Stack([], out) == out
  {
  }

  lemma DottedPath()
    ensures JoinPath("/a/../b", "") == "/b" && Resolve("/a/../b", "") == "/a/../b"
  {
    hide Slashed, Stack, Split;
    var p, segments := "/a/../b", ["a", "..", "b"];
    IndexUnique(p, '?', |p|);
    IndexUnique("", '?', 0);
    assert p[..|p|] == p && p[|p|..] == "" && ""[..0] == "";
    DottedSegments();
    SplitSlashed(segments);
    assert ([""] + segments)[1..] == segments;
    assert Join(["b"]) == "b";
  }
}
