/**
 Where a redirect's location leads by `join` of crates/wasix-net/src/http/url.rs, and where it
 leads by section 5.2.2 of RFC 3986.
 */
module UrlJoin {
  import opened Bytes
  import opened Text
  import opened UrlPath
  import opened UrlText

  // ----- Section 5.2.2 of RFC 3986 -----

  /** The target of a reference, its fragment left out: the host and port of its authority, if
      it has one, and path and query. An empty path behind an authority is written as a slash. */
  datatype Target = Target(scheme: string, server: Option<(string, Option<nat>)>, path: string)

  /** A path that is not merged with another. */
  function WithoutDots(path: string): string {
    RemoveDotSegments(BeforeQuery(path), "") + QueryOf(path)
  }

  /** What stands behind the scheme's colon. */
  function BehindScheme(reference: string): string
    requires HasScheme(reference)
  {
    reference[IndexOf(reference, ':') + 1..]
  }

  /** What stands behind the two slashes of a reference that has an authority. */
  function ServerPart(reference: string): Option<string> {
    if HasScheme(reference) then
      if "//" <= BehindScheme(reference) then Some(BehindScheme(reference)[2..]) else None
    else if "//" <= reference then Some(reference[2..])
    else None
  }

  function PathBehind(part: string): string {
    PathOf(part[AuthorityLength(part)..])
  }

  /** The target of a reference, or why its authority names no server. */
  function TargetOf(u: Url, reference: string): Result<Target, Problem> {
    var scheme := Lower(if HasScheme(reference) then Before(reference, ':') else u.scheme);
    match ServerPart(reference)
    case Some(part) =>
      (match ParseAuthority(part[..AuthorityLength(part)])
       case Err(p) => Err(p)
       case Ok(server) => Ok(Target(scheme, Some(server), WithoutDots(PathBehind(part)))))
    case None =>
      if HasScheme(reference) then Ok(Target(scheme, None, WithoutDots(Before(BehindScheme(reference), '#'))))
      else Ok(Target(scheme, Some((u.host, u.port)), Resolve(u.path, Before(reference, '#'))))
  }

  predicate Reaches(v: Url, t: Target) {
    v.scheme == t.scheme && t.server == Some((v.host, v.port)) && v.path == t.path
  }

  // ----- The code -----

  /** `join`. */
  function Join(u: Url, location: string): Result<Url, Problem> {
    var l := Trim(location);
    if HasScheme(l) && Separator(l) < |l| then Parse(l)
    else if "//" <= l then Parse(u.scheme + "://" + l[2..])
    else
      var path := JoinPath(u.path, Before(l, '#'));
      if Clean(path) then Ok(u.(path := path)) else Err(BadPath)
  }

  /** A location that is not handed to `parse` stays on the URL's server, with a clean path. It
      is the one that `Resolve` gives, unless the location has no path of its own and the URL's
      holds dot segments. */
  lemma JoinedIsResolved(u: Url, location: string)
    requires Shaped(u)
    ensures var l := Trim(location);
            var r := Join(u, location);
            !(HasScheme(l) && Separator(l) < |l|) && !("//" <= l) && r.Ok? ==>
              && r.value == u.(path := r.value.path) && Absolute(r.value.path) && Clean(r.value.path)
              && AllKept(Split(BeforeQuery(r.value.path), '/'))
              && (r.value.path == Resolve(u.path, Before(l, '#')) <==>
                  BeforeQuery(Before(l, '#')) != "" || AllKept(Split(BeforeQuery(u.path), '/')))
  {
    hide JoinPath, Resolve, AllKept, Clean, HasScheme, Separator;
    var l := Before(Trim(location), '#');
    JoinedPath(u.path, l);
    if BeforeQuery(l) != "" {
      JoinResolves(u.path, l);
    } else {
      JoinOfQuery(u.path, l);
    }
  }

  // ----- When the two agree -----

  predicate Undotted(path: string) {
    AllKept(Split(BeforeQuery(path), '/'))
  }

  /** A reference with an authority must hold no dot segment, as its path is taken as it is; one
      with a scheme must have an authority; and one with neither must have a path of its own,
      unless the URL's path holds no dot segment. */
  predicate LeadsThere(u: Url, reference: string) {
    match ServerPart(reference)
    case Some(part) => Undotted(PathBehind(part))
    case None => !HasScheme(reference) && (BeforeQuery(Before(reference, '#')) != "" || Undotted(u.path))
  }

  lemma OwnSeparator(l: string)
    requires HasScheme(l) && "//" <= BehindScheme(l)
    ensures Separator(l) == IndexOf(l, ':') < |l| && SchemeText(Before(l, ':'))
    ensures l == Before(l, ':') + "://" + BehindScheme(l)[2..]
  {
    hide SchemeText, Scheme, Separator, SeparatorAt, HasScheme, IndexOf;
    BeforeIsScheme(l);
    BehindSlashes(l, IndexOf(l, ':'));
    SeparatorIs(l, IndexOf(l, ':'));
    PlainScheme(Before(l, ':'));
  }

  lemma BeforeIsScheme(l: string)
    requires HasScheme(l)
    ensures Scheme(Before(l, ':')) && IndexOf(l, ':') < |l|
  {
  }

  lemma BehindSlashes(l: string, i: nat)
    requires i < |l| && l[i] == ':' && "//" <= l[i + 1..] && forall j :: 0 <= j < i ==> l[j] != ':'
    ensures SeparatorAt(l, i) && forall j :: 0 <= j < i ==> !SeparatorAt(l, j)
    ensures l == l[..i] + "://" + l[i + 1..][2..]
  {
    var rest := l[i + 1..];
    assert rest[0] == '/' && rest[1] == '/';
    assert l[i..] == ":" + rest == "://" + rest[2..];
    assert l == l[..i] + l[i..];
  }

  lemma SlashesNoScheme(l: string)
    requires "//" <= l
    ensures !HasScheme(l)
  {
    assert l[0] == '/' && IndexOf(l, ':') > 0;
    assert Before(l, ':')[0] == l[0];
  }

  /** A reference put together from a scheme and what stands behind it. */
  lemma SchemeInFront(scheme: string, rest: string)
    requires Scheme(scheme)
    ensures var l := scheme + ":" + rest;
            HasScheme(l) && Before(l, ':') == scheme && BehindScheme(l) == rest
  {
    hide IndexOf;
    var l := scheme + ":" + rest;
    forall k | 0 <= k < |scheme| ensures l[k] != ':' {
      assert SchemeChar(scheme[k]);
    }
    IndexUnique(l, ':', |scheme|);
    assert l[..|scheme|] == scheme && l[|scheme| + 1..] == rest;
    assert l[|scheme|] in l;
  }

  /** A text in front of `://` that begins with a scheme is not trimmed in front. */
  lemma PrefixedTrimmed(scheme: string, rest: string)
    requires SchemeText(scheme) && (rest != "" ==> !White(rest[|rest| - 1]))
    ensures Trim(scheme + "://" + rest) == scheme + "://" + rest
  {
    var s := scheme + "://" + rest;
    LetterIsBlack(scheme);
    assert s[0] == scheme[0];
    assert rest != "" ==> s[|s| - 1] == rest[|rest| - 1];
    assert rest == "" ==> s[|s| - 1] == '/';
    NotTrimmed(s);
  }

  /** A location with an authority is parsed. */
  lemma JoinParses(u: Url, location: string)
    requires Shaped(u) && ServerPart(Trim(location)).Some?
    ensures var l := Trim(location);
            var scheme := if HasScheme(l) then Before(l, ':') else u.scheme;
            SchemeText(scheme) && Join(u, location) == ParseTrimmed(scheme + "://" + ServerPart(l).value)
  {
    hide ParseTrimmed, SchemeText, HasScheme;
    var l := Trim(location);
    TrimIsTrimmed(location);
    if HasScheme(l) {
      OwnSeparator(l);
      PrefixedTrimmed(Before(l, ':'), ServerPart(l).value);
    } else {
      PrefixedTrimmed(u.scheme, l[2..]);
    }
  }

  lemma DotsGone(path: string)
    requires Absolute(path)
    ensures WithoutDots(path) == path <==> Undotted(path)
  {
    NormalizeFollowsRules(path);
    NormalizeFixes(path);
  }

  /** With an authority: the server is reached, and the target exactly if there is no dot segment. */
  lemma JoinWithServer(u: Url, location: string)
    requires Shaped(u) && ServerPart(Trim(location)).Some?
    ensures var l, r := Trim(location), Join(u, location);
            var t := TargetOf(u, l);
            && (t.Err? ==> r == Err(t.error))
            && (t.Ok? ==> (r.Ok? <==> Clean(PathBehind(ServerPart(l).value))))
            && (r.Ok? ==> t.Ok? && (Reaches(r.value, t.value) <==> LeadsThere(u, l)))
  {
    hide ParseTrimmed, SchemeText, HasScheme, ServerPart, Join, ParseAuthority, Clean, WithoutDots, Undotted, Lower,
         AuthorityLength;
    var l := Trim(location);
    var part := ServerPart(l).value;
    var scheme := if HasScheme(l) then Before(l, ':') else u.scheme;
    JoinParses(u, location);
    ParseServer(scheme, part);
    PathShaped(part[AuthorityLength(part)..]);
    DotsGone(PathBehind(part));
  }

  /** Whatever the location, where `join` leads is the target of section 5.2.2 exactly under
      that condition. */
  lemma JoinFollows(u: Url, location: string)
    requires Shaped(u)
    ensures var l, r := Trim(location), Join(u, location);
            var t := TargetOf(u, l);
            && (r.Ok? ==> t.Ok? && (Reaches(r.value, t.value) <==> LeadsThere(u, l)))
            && (t.Err? ==> r == Err(t.error))
            && (ServerPart(l).Some? && t.Ok? ==> (r.Ok? <==> Clean(PathBehind(ServerPart(l).value))))
  {
    hide Join, HasScheme, LeadsThere, Reaches, TargetOf, Clean;
    var l := Trim(location);
    if ServerPart(l).Some? {
      JoinWithServer(u, location);
    } else {
      JoinWithoutServer(u, location);
    }
  }

  lemma JoinWithoutServer(u: Url, location: string)
    requires Shaped(u) && ServerPart(Trim(location)).None?
    ensures var l, r := Trim(location), Join(u, location);
            var t := TargetOf(u, l);
            t.Ok? && (r.Ok? ==> (Reaches(r.value, t.value) <==> LeadsThere(u, l)))
  {
    hide HasScheme, Resolve, JoinPath, Clean, Parse;
    var l := Trim(location);
    if !HasScheme(l) {
      JoinedIsResolved(u, location);
    }
  }

  // ----- Locations that lead elsewhere -----

  lemma DottedParses()
    ensures Parse("http://h/a/../b") == Ok(Url("http", "h", None, "/a/../b"))
  {
    hide ParseTrimmed, ParseAuthority, Trim, SchemeText, Lower;
    SchemeHttp();
    assert Lower("h") == "h" by { SingleLower(); }
    PlainHost("h");
    ParseParts("http", "h", "/a/../b");
    assert Clean("/a/../b");
    assert "http" + "://" + ("h" + "/a/../b") == "http://h/a/../b";
    NotTrimmed("http://h/a/../b");
  }

  lemma SingleLower()
    ensures Lower("h") == "h"
  {
  }

  /** An empty location on a path with dot segments: they go, although the standard keeps the
      base path as it is. */
  lemma EmptyLocationIsNotResolved()
    ensures var u := Url("http", "h", None, "/a/../b");
            && Parse("http://h/a/../b") == Ok(u) && Join(u, "") == Ok(u.(path := "/b"))
            && Resolve(u.path, "") == "/a/../b"
  {
    hide Parse, JoinPath, Resolve;
    DottedParses();
    DottedPath();
    assert Trim("") == "" && Before("", '#') == "" && !HasScheme("");
    assert Clean("/b");
  }

  lemma DottedReference()
    ensures PathBehind("h/a/../b") == "/a/../b" && AuthorityLength("h/a/../b") == 1 && "h/a/../b"[..1] == "h"
  {
    hide PathOf, AuthorityLength;
    AuthorityLengthIs("h/a/../b", 1);
    assert "h/a/../b"[1..] == "/a/../b";
    PathReads("/a/../b");
  }

  lemma DottedGone()
    ensures WithoutDots("/a/../b") == "/b"
  {
    hide RemoveDotSegments, Normalize, BeforeQuery, QueryOf, Resolve;
    DottedPath();
    NormalizeFollowsRules("/a/../b");
  }

  /** Behind whatever scheme: `/a/../b` on the server h. */
  lemma DottedServer(u: Url, location: string, scheme: string)
    requires Shaped(u) && Trim(location) == location && ServerPart(location) == Some("h/a/../b")
    requires scheme == (if HasScheme(location) then Before(location, ':') else u.scheme) && Lower(scheme) == scheme
    ensures Join(u, location) == Ok(Url(scheme, "h", None, "/a/../b"))
    ensures TargetOf(u, location) == Ok(Target(scheme, Some(("h", None)), "/b"))
  {
    hide Join, WithoutDots, PathOf, ParseAuthority, AuthorityLength, HasScheme, ServerPart, ParseTrimmed, Lower, Trim, Shaped;
    DottedReference();
    DottedGone();
    assert ParseAuthority("h") == Ok(("h", None)) by {
      SingleLower();
      PlainHost("h");
    }
    JoinParses(u, location);
    ParseServer(scheme, "h/a/../b");
    assert Clean("/a/../b");
  }

  /** An absolute location keeps its dot segments, and so does one that only leaves the scheme
      out; the standard asks for them to be removed. */
  lemma DotsStay(u: Url)
    requires Shaped(u)
    ensures Join(u, "http://h/a/../b") == Ok(Url("http", "h", None, "/a/../b"))
    ensures TargetOf(u, "http://h/a/../b") == Ok(Target("http", Some(("h", None)), "/b"))
    ensures Join(u, "//h/a/../b") == Ok(Url(u.scheme, "h", None, "/a/../b"))
    ensures TargetOf(u, "//h/a/../b") == Ok(Target(u.scheme, Some(("h", None)), "/b"))
  {
    hide Join, TargetOf, HasScheme, ServerPart, Trim, Lower, SchemeText;
    SchemeHttp();
    AbsoluteParts();
    SlashParts();
    DottedServer(u, "http://h/a/../b", "http");
    DottedServer(u, "//h/a/../b", u.scheme);
  }

  lemma AbsoluteParts()
    ensures var l := "http://h/a/../b";
            Trim(l) == l && HasScheme(l) && Before(l, ':') == "http" && ServerPart(l) == Some("h/a/../b")
  {
    hide Trim, HasScheme, Before;
    NotTrimmed("http://h/a/../b");
    assert "http" + ":" + "//h/a/../b" == "http://h/a/../b";
    SchemeInFront("http", "//h/a/../b") by { assert Scheme("http"); }
    SlashSlash();
  }

  lemma SlashSlash()
    ensures "//" <= "//h/a/../b" && "//h/a/../b"[2..] == "h/a/../b"
  {
  }

  lemma SlashParts()
    ensures var l := "//h/a/../b";
            Trim(l) == l && !HasScheme(l) && ServerPart(l) == Some("h/a/../b")
  {
    hide Trim, HasScheme;
    NotTrimmed("//h/a/../b");
    SlashSlash();
    SlashesNoScheme("//h/a/../b");
  }

  /** A location with a scheme of its own and no authority becomes a file beside the URL's. */
  lemma MailStays()
    ensures var u := Url("http", "h", None, "/");
            && Join(u, "mailto:x") == Ok(u.(path := "/mailto:x"))
            && TargetOf(u, "mailto:x") == Ok(Target("mailto", None, "x"))
  {
    hide JoinPath, WithoutDots, Trim, Lower, HasScheme, Before, BehindScheme, Separator;
    MailScheme();
    MailText();
    MailPath();
    LoneSegment();
    assert Clean("/mailto:x");
    assert "//"[0] == '/' && "mailto:x"[0] == 'm' && |"x"| == 1;
    assert !("//" <= "mailto:x") && !("//" <= "x");
  }

  lemma MailScheme()
    ensures HasScheme("mailto:x") && Before("mailto:x", ':') == "mailto" && BehindScheme("mailto:x") == "x"
    ensures Lower("mailto") == "mailto"
  {
    hide HasScheme, Before, BehindScheme;
    assert "mailto" + ":" + "x" == "mailto:x";
    SchemeInFront("mailto", "x") by { assert Scheme("mailto"); }
  }

  lemma MailText()
    ensures Trim("mailto:x") == "mailto:x" && Separator("mailto:x") == 8
    ensures Before("mailto:x", '#') == "mailto:x" && Before("x", '#') == "x"
  {
    hide Trim, IndexOf, Separator;
    NotTrimmed("mailto:x");
    IndexUnique("mailto:x", '#', 8);
    IndexUnique("x", '#', 1);
    assert "mailto:x"[..8] == "mailto:x" && "x"[..1] == "x";
    SeparatorIs("mailto:x", 8);
  }

  lemma MailMerged()
    ensures Merged("/", "mailto:x") == "/mailto:x"
    ensures BeforeQuery("/mailto:x") == "/mailto:x"
  {
    hide IndexOf, LastIndexOf;
    IndexUnique("/", '?', 1);
    assert "/"[..1] == "/";
    LastIndexUnique("/", '/', 0);
    assert "/" + "mailto:x" == "/mailto:x";
    IndexUnique("/mailto:x", '?', 9);
    assert "/mailto:x"[..9] == "/mailto:x";
  }

  lemma MailPath()
    ensures JoinPath("/", "mailto:x") == "/mailto:x"
  {
    hide Split, Merged, BeforeQuery, Normalize, Slashed;
    MailMerged();
    SlashedOne("mailto:x");
    assert "/" + "mailto:x" == "/mailto:x";
    SplitSlashed(["mailto:x"]);
    NormalizeFixes("/mailto:x");
  }

  lemma LoneSegment()
    ensures WithoutDots("x") == "x"
  {
    hide IndexOf;
    IndexUnique("x", '?', 1);
    assert "x"[..1] == "x" && "x"[1..] == "";
    assert RemoveDotSegments("x", "") == "x" by { LoneRule(); }
  }

  lemma LoneRule()
    ensures RemoveDotSegments("x", "") == "x"
  {
    assert "x"[1..] == "" && "x"[..1] == "x";
    assert "x"[0] == 'x';
    assert IndexOf("", '/') == 0;
    assert 1 + IndexOf("x"[1..], '/') == 1;
    assert Rule("x", "") == ("", "" + "x");
    assert "" + "x" == "x";
  }
}
