/**
 URLs of crates/wasix-net/src/http/url.rs as text: parsing, printing, and how far printing is
 undone by parsing.
 */
module UrlText {
  import opened Bytes
  import opened Text
  import opened UrlPath

  datatype Url = Url(scheme: string, host: string, port: Option<nat>, path: string)

  datatype Problem = NotAbsolute | BadScheme | BadIpv6 | BadPort | NoHost | BadPath

  // ----- Parsing -----

  predicate Letter(c: char) {
    'a' <= c <= 'z' || 'A' <= c <= 'Z'
  }

  predicate SchemeChar(c: char) {
    Letter(c) || '0' <= c <= '9' || c == '+' || c == '-' || c == '.'
  }

  predicate Scheme(s: string) {
    s != "" && Letter(s[0]) && forall k :: 0 <= k < |s| ==> SchemeChar(s[k])
  }

  /** `has_scheme`: whether the part before the first colon is a scheme. */
  predicate HasScheme(s: string) {
    ':' in s && Scheme(Before(s, ':'))
  }

  /** Where the first `://` is, or the length of the text. */
  function Separator(s: string): (k: nat)
    ensures k <= |s| && (k < |s| ==> k + 3 <= |s| && s[k..k + 3] == "://")
  {
    if |s| < 3 then |s| else if s[..3] == "://" then 0 else 1 + Separator(s[1..])
  }

  predicate Ends(c: char) {
    c == '/' || c == '?' || c == '#'
  }

  /** How long the authority is. */
  function AuthorityLength(s: string): (k: nat)
    ensures k <= |s|
    ensures forall j :: 0 <= j < k ==> !Ends(s[j])
    ensures k < |s| ==> Ends(s[k])
  {
    if s == "" then 0 else if Ends(s[0]) then 0 else 1 + AuthorityLength(s[1..])
  }

  function WithoutUser(authority: string): string {
    match LastIndexOf(authority, '@')
    case None => authority
    case Some(k) => authority[k + 1..]
  }

  /** Host and port as they stand in the text. */
  function HostAndPort(authority: string): Result<(string, Option<string>), Problem> {
    if authority != "" && authority[0] == '[' then
      var v6 := authority[1..];
      var k := IndexOf(v6, ']');
      if k == |v6| then Err(BadIpv6)
      else if k + 1 == |v6| then Ok((v6[..k], None))
      else if v6[k + 1] != ':' then Err(BadPort)
      else Ok((v6[..k], Some(v6[k + 2..])))
    else
      match LastIndexOf(authority, ':')
      case Some(k) => Ok((authority[..k], Some(authority[k + 1..])))
      case None => Ok((authority, None))
  }

  function PortOf(text: Option<string>): Result<Option<nat>, Problem> {
    if text.None? || text.value == "" then Ok(None)
    else
      match ParseUnsigned(text.value, 10, 65536)
      case None => Err(BadPort)
      case Some(p) => Ok(Some(p))
  }

  /** Blanks and control characters, which no path may hold. */
  predicate Control(c: char) {
    c <= ' ' || c as int == 0x7F
  }

  predicate Clean(path: string) {
    forall k :: 0 <= k < |path| ==> !Control(path[k])
  }

  /** A path holds neither blanks nor control characters. */
  lemma CleanExact(path: string)
    ensures Clean(path) <==> forall k :: 0 <= k < |path| ==> path[k] as int > 32 && path[k] as int != 127
  {
  }

  function ParseAuthority(authority: string): Result<(string, Option<nat>), Problem> {
    match HostAndPort(WithoutUser(authority))
    case Err(p) => Err(p)
    case Ok((host, port)) =>
      if host == "" then Err(NoHost)
      else
        match PortOf(port)
        case Err(p) => Err(p)
        case Ok(n) => Ok((Lower(host), n))
  }

  function PathOf(tail: string): string {
    var t := Before(tail, '#');
    if t != "" && t[0] == '/' then t else "/" + t
  }

  /** `parse`, behind the trimming. */
  function ParseTrimmed(s: string): Result<Url, Problem> {
    var k := Separator(s);
    if k == |s| then Err(NotAbsolute)
    else if !HasScheme(s[..k] + ":") then Err(BadScheme)
    else
      var rest := s[k + 3..];
      var end := AuthorityLength(rest);
      match ParseAuthority(rest[..end])
      case Err(p) => Err(p)
      case Ok((host, port)) =>
        if !Clean(PathOf(rest[end..])) then Err(BadPath)
        else Ok(Url(Lower(s[..k]), host, port, PathOf(rest[end..])))
  }

  function Parse(input: string): Result<Url, Problem> {
    ParseTrimmed(Trim(input))
  }

  // ----- Printing -----

  function DefaultPort(scheme: string): Option<nat> {
    if scheme == "http" then Some(80) else if scheme == "https" then Some(443) else None
  }

  function HostText(host: string): string {
    if ':' in host then "[" + host + "]" else host
  }

  function PortText(port: Option<nat>): string {
    match port
    case None => ""
    case Some(p) => ":" + Numeral(p, 10)
  }

  /** The port, unless it is the scheme's own. */
  function ShownPort(u: Url): Option<nat> {
    if u.port == DefaultPort(u.scheme) then None else u.port
  }

  function Authority(u: Url): string {
    HostText(u.host) + PortText(ShownPort(u))
  }

  function AbsoluteText(u: Url): string {
    u.scheme + "://" + (Authority(u) + u.path)
  }

  // ----- What parsing gives -----

  predicate HostChars(host: string) {
    forall k :: 0 <= k < |host| ==> !Ends(host[k]) && host[k] != '@'
  }

  /** What passes for a scheme: only its part before a colon, if it has one, is looked at. */
  predicate SchemeText(s: string) {
    HasScheme(s + ":") && Separator(s) == |s|
  }

  /** What every parsed URL is like. */
  predicate Shaped(u: Url) {
    && SchemeText(u.scheme) && Lower(u.scheme) == u.scheme
    && u.host != "" && Lower(u.host) == u.host && HostChars(u.host)
    && (u.port.Some? ==> u.port.value < 65536)
    && Absolute(u.path) && '#' !in u.path && Clean(u.path)
  }

  lemma LowerTwice(s: string)
    ensures Lower(Lower(s)) == Lower(s)
  {
  }

  lemma LowerKeeps(s: string, k: nat)
    requires k < |s|
    ensures Lower(s)[k] == LowerChar(s[k])
    ensures Lower(s)[k] == ':' <==> s[k] == ':'
    ensures Ends(Lower(s)[k]) <==> Ends(s[k])
    ensures Lower(s)[k] == '@' <==> s[k] == '@'
    ensures SchemeChar(s[k]) ==> SchemeChar(Lower(s)[k])
    ensures Letter(s[k]) ==> Letter(Lower(s)[k])
    ensures Lower(s)[k] == '/' <==> s[k] == '/'
  {
  }

  lemma LowerHost(s: string)
    requires HostChars(s)
    ensures HostChars(Lower(s))
  {
    forall k | 0 <= k < |s| ensures !Ends(Lower(s)[k]) && Lower(s)[k] != '@' {
      LowerKeeps(s, k);
    }
  }

  lemma LowerHasScheme(s: string)
    requires HasScheme(s + ":")
    ensures HasScheme(Lower(s) + ":")
  {
    var t, l := s + ":", Lower(s) + ":";
    var i := IndexOf(t, ':');
    forall k | 0 <= k < |s| ensures l[k] == LowerChar(t[k]) && (l[k] == ':' <==> t[k] == ':') {
      LowerKeeps(s, k);
    }
    IndexUnique(l, ':', i);
    forall k | 0 <= k < i ensures SchemeChar(l[..i][k]) {
      LowerKeeps(s, k);
      assert SchemeChar(t[..i][k]);
    }
    LowerKeeps(s, 0);
  }

  predicate SeparatorAt(s: string, k: nat) {
    k + 3 <= |s| && s[k] == ':' && s[k + 1] == '/' && s[k + 2] == '/'
  }

  lemma {:induction false} SeparatorIs(s: string, k: nat)
    requires (SeparatorAt(s, k) || k == |s|) && forall j :: 0 <= j < k ==> !SeparatorAt(s, j)
    ensures Separator(s) == k
    decreases |s|
  {
    if |s| >= 3 {
      assert s[..3] == "://" <==> SeparatorAt(s, 0) by {
        assert s[..3] == [s[0], s[1], s[2]];
      }
      if k > 0 {
        forall j | 0 <= j < k - 1 ensures !SeparatorAt(s[1..], j) {
          assert SeparatorAt(s[1..], j) <==> SeparatorAt(s, j + 1);
        }
        SeparatorIs(s[1..], k - 1);
      }
    }
  }

  lemma {:induction false} SeparatorFirst(s: string)
    ensures forall j :: 0 <= j < Separator(s) ==> !SeparatorAt(s, j)
    ensures Separator(s) < |s| ==> SeparatorAt(s, Separator(s))
    decreases |s|
  {
    if |s| >= 3 {
      assert s[..3] == [s[0], s[1], s[2]];
      if s[..3] != "://" {
        SeparatorFirst(s[1..]);
        forall j | 0 <= j < Separator(s) ensures !SeparatorAt(s, j) {
          if j > 0 {
            assert SeparatorAt(s[1..], j - 1) <==> SeparatorAt(s, j);
          }
        }
      }
    }
  }

  lemma LowerSeparator(s: string)
    ensures Separator(Lower(s)) == Separator(s)
  {
    SeparatorFirst(s);
    forall j | 0 <= j < |s| ensures SeparatorAt(Lower(s), j) <==> SeparatorAt(s, j) {
      LowerKeeps(s, j);
      if j + 3 <= |s| {
        LowerKeeps(s, j + 1);
        LowerKeeps(s, j + 2);
      }
    }
    SeparatorIs(Lower(s), Separator(s));
  }

  /** The part before the first separator has none. */
  lemma SeparatorBefore(s: string)
    ensures Separator(s[..Separator(s)]) == Separator(s)
  {
    SeparatorFirst(s);
    var front := s[..Separator(s)];
    forall j | 0 <= j < |front| ensures !SeparatorAt(front, j) {
      assert SeparatorAt(front, j) ==> SeparatorAt(s, j);
    }
    SeparatorIs(front, |front|);
  }

  /** Every parsed URL has a scheme and a host in lower case, a 16-bit port and a clean path
      that begins with a slash. */
  lemma ParsedIsShaped(input: string)
    requires Parse(input).Ok?
    ensures Shaped(Parse(input).value)
  {
    hide Clean, ParseAuthority, PathOf, HasScheme;
    var s := Trim(input);
    var k := Separator(s);
    var rest := s[k + 3..];
    var end := AuthorityLength(rest);
    SeparatorBefore(s);
    LowerSeparator(s[..k]);
    LowerHasScheme(s[..k]);
    LowerTwice(s[..k]);
    AuthorityShaped(rest[..end]);
    PathShaped(rest[end..]);
  }

  lemma AuthorityShaped(authority: string)
    requires forall k :: 0 <= k < |authority| ==> !Ends(authority[k])
    requires ParseAuthority(authority).Ok?
    ensures var (host, port) := ParseAuthority(authority).value;
            host != "" && Lower(host) == host && HostChars(host) && (port.Some? ==> port.value < 65536)
  {
    hide Lower, HostAndPort, LastIndexOf, ParseUnsigned;
    var a := WithoutUser(authority);
    assert HostChars(a);
    var host := HostAndPort(a).value.0;
    HostOfAuthority(a);
    LowerHost(host);
    LowerTwice(host);
  }

  lemma HostOfAuthority(a: string)
    requires HostChars(a) && HostAndPort(a).Ok?
    ensures HostChars(HostAndPort(a).value.0)
  {
  }

  lemma PathShaped(tail: string)
    ensures Absolute(PathOf(tail)) && '#' !in PathOf(tail)
  {
  }

  // ----- Printing and parsing again -----

  /** A host that its printed form determines: one in brackets must not hold the closing one,
      and one without brackets must not begin with the opening one. */
  predicate GoodHost(host: string) {
    if ':' in host then ']' !in host else host == "" || host[0] != '['
  }

  /** The URL with its port left out where it is the scheme's own. */
  function Shown(u: Url): Url {
    u.(port := ShownPort(u))
  }

  lemma PortReads(port: Option<nat>)
    requires port.Some? ==> port.value < 65536
    ensures port.Some? ==> PortOf(Some(PortText(port)[1..])) == Ok(port)
  {
    if port.Some? {
      ParseNumeral(port.value, 10, 65536);
    }
  }

  lemma PortPlain(port: Option<nat>)
    ensures var t := PortText(port);
            && (forall k :: 0 <= k < |t| ==> !Ends(t[k]) && t[k] != '@' && t[k] != ']' && (k > 0 ==> t[k] != ':'))
            && (t == "" <==> port == None) && (t != "" ==> t[0] == ':' && |t| > 1)
  {
    if port.Some? {
      var n, t := Numeral(port.value, 10), PortText(port);
      forall k | 1 <= k < |t| ensures Digit(t[k], 10).Some? {
        assert t[k] == n[k - 1];
      }
    }
  }

  /** A host in brackets. */
  lemma BracketReads(host: string, port: Option<nat>)
    requires host != "" && Lower(host) == host && (port.Some? ==> port.value < 65536)
    requires ':' in host && HostChars(host)
    ensures ']' !in host ==> ParseAuthority(HostText(host) + PortText(port)) == Ok((host, port))
    ensures ']' in host ==>
              var r := ParseAuthority(HostText(host) + PortText(port));
              r.Ok? ==> |r.value.0| < |host|
  {
    hide HostAndPort, PortText, Lower, PortOf;
    var a := HostText(host) + PortText(port);
    PortPlain(port);
    NoUser(a);
    if ']' !in host {
      BracketSplits(host, port);
      PortReads(port);
      assert PortOf(None) == Ok(None) by { NoPort(); }
    } else {
      BracketSplitsEarly(host, PortText(port));
    }
  }

  lemma NoPort()
    ensures PortOf(None) == Ok(None)
  {
  }

  lemma BracketSplits(host: string, port: Option<nat>)
    requires ']' !in host
    ensures HostAndPort("[" + host + "]" + PortText(port))
            == Ok((host, if port.None? then None else Some(PortText(port)[1..])))
  {
    hide Numeral;
    var t := PortText(port);
    PortPlain(port);
    var a, v6 := "[" + host + "]" + t, host + "]" + t;
    assert a == "[" + v6 && a[1..] == v6;
    IndexUnique(v6, ']', |host|);
    assert v6[..|host|] == host;
    if t != "" {
      assert v6[|host| + 1] == ':' && v6[|host| + 2..] == t[1..];
    }
  }

  lemma BracketSplitsEarly(host: string, t: string)
    requires ']' in host
    ensures var r := HostAndPort("[" + host + "]" + t);
            r.Ok? ==> |r.value.0| < |host|
  {
    var a, v6 := "[" + host + "]" + t, host + "]" + t;
    assert a == "[" + v6 && a[1..] == v6;
    var k :| 0 <= k < |host| && host[k] == ']';
    assert v6[k] == ']';
    assert IndexOf(v6, ']') <= k;
  }

  lemma NoUser(a: string)
    requires '@' !in a
    ensures WithoutUser(a) == a
  {
  }

  /** A host without brackets. */
  lemma PlainReads(host: string, port: Option<nat>)
    requires host != "" && Lower(host) == host && (port.Some? ==> port.value < 65536)
    requires ':' !in host && HostChars(host)
    ensures host[0] != '[' ==> ParseAuthority(HostText(host) + PortText(port)) == Ok((host, port))
    ensures host[0] == '[' ==>
              var r := ParseAuthority(HostText(host) + PortText(port));
              r.Ok? ==> |r.value.0| < |host|
  {
    hide Numeral, ParseUnsigned, ParseAuthority, PortText, Lower, HostChars;
    if host[0] != '[' {
      PlainHostReads(host, port);
    } else {
      OpenHostReads(host, port);
    }
  }

  lemma NoUserIn(host: string, port: Option<nat>)
    requires HostChars(host)
    ensures '@' !in host + PortText(port)
  {
    PortPlain(port);
  }

  lemma PlainHostReads(host: string, port: Option<nat>)
    requires host != "" && Lower(host) == host && (port.Some? ==> port.value < 65536)
    requires ':' !in host && HostChars(host) && host[0] != '['
    ensures ParseAuthority(host + PortText(port)) == Ok((host, port))
  {
    hide Numeral, ParseUnsigned, PortText, PortOf, Lower;
    var t := PortText(port);
    PortPlain(port);
    PortReads(port);
    var a := host + t;
    NoUserIn(host, port);
    NoUser(a);
    if t == "" {
      assert a == host;
      assert LastIndexOf(a, ':') == None;
      NoPort();
    } else {
      LastIndexUnique(a, ':', |host|);
      assert a[..|host|] == host && a[|host| + 1..] == t[1..];
    }
  }

  lemma OpenHostReads(host: string, port: Option<nat>)
    requires host != "" && HostChars(host) && ':' !in host && host[0] == '['
    ensures var r := ParseAuthority(host + PortText(port)); r.Ok? ==> |r.value.0| < |host|
  {
    hide Numeral, ParseUnsigned, PortText, PortOf;
    var t := PortText(port);
    PortPlain(port);
    var a := host + t;
    NoUserIn(host, port);
    NoUser(a);
    var v6 := a[1..];
    assert v6 == host[1..] + t;
    assert forall j :: |host| - 1 <= j < |v6| ==> v6[j] == t[j - |host| + 1] && v6[j] != ']';
  }

  lemma AuthorityReads(host: string, port: Option<nat>)
    requires host != "" && Lower(host) == host && HostChars(host) && (port.Some? ==> port.value < 65536)
    ensures ParseAuthority(HostText(host) + PortText(port)) == Ok((host, port)) <==> GoodHost(host)
    ensures forall k :: 0 <= k < |HostText(host) + PortText(port)| ==> !Ends((HostText(host) + PortText(port))[k])
  {
    hide ParseAuthority;
    PortPlain(port);
    if ':' in host {
      BracketReads(host, port);
    } else {
      PlainReads(host, port);
    }
  }

  lemma AuthorityEnds(a: string, path: string)
    requires (forall k :: 0 <= k < |a| ==> !Ends(a[k])) && Absolute(path)
    ensures AuthorityLength(a + path) == |a| && (a + path)[..|a|] == a && (a + path)[|a|..] == path
  {
    AuthorityLengthIs(a + path, |a|);
  }

  lemma {:induction false} AuthorityLengthIs(s: string, k: nat)
    requires k < |s| && Ends(s[k]) && forall j :: 0 <= j < k ==> !Ends(s[j])
    ensures AuthorityLength(s) == k
  {
    if k > 0 {
      AuthorityLengthIs(s[1..], k - 1);
    }
  }

  /** Parsing a text with whatever stands behind the separator. */
  lemma ParseServer(scheme: string, rest: string)
    requires SchemeText(scheme)
    ensures var end := AuthorityLength(rest);
            ParseTrimmed(scheme + "://" + rest)
            == match ParseAuthority(rest[..end])
               case Err(p) => Err(p)
               case Ok((host, port)) =>
                 if Clean(PathOf(rest[end..])) then Ok(Url(Lower(scheme), host, port, PathOf(rest[end..]))) else Err(BadPath)
  {
    hide ParseAuthority, Clean, HasScheme, AuthorityLength, PathOf, Separator;
    var s := scheme + "://" + rest;
    FirstSeparator(scheme, rest);
    assert s[..|scheme|] == scheme && s[|scheme| + 3..] == rest;
  }

  /** Parsing a text put together from its parts. */
  lemma ParseParts(scheme: string, a: string, path: string)
    requires SchemeText(scheme) && Absolute(path) && '#' !in path
    requires forall k :: 0 <= k < |a| ==> !Ends(a[k])
    ensures ParseTrimmed(scheme + "://" + (a + path))
            == match ParseAuthority(a)
               case Err(p) => Err(p)
               case Ok((host, port)) =>
                 if Clean(path) then Ok(Url(Lower(scheme), host, port, path)) else Err(BadPath)
  {
    hide ParseAuthority, Clean, HasScheme, AuthorityLength, PathOf, Separator, ParseTrimmed;
    ParseServer(scheme, a + path);
    AuthorityEnds(a, path);
    PathReads(path);
  }

  lemma PathReads(path: string)
    requires Absolute(path) && '#' !in path
    ensures PathOf(path) == path
  {
    IndexUnique(path, '#', |path|);
  }

  lemma FirstSeparator(scheme: string, rest: string)
    requires Separator(scheme) == |scheme|
    ensures Separator(scheme + "://" + rest) == |scheme|
  {
    SeparatorFirst(scheme);
    var s := scheme + "://" + rest;
    forall j | 0 <= j < |scheme| ensures !SeparatorAt(s, j) {
      if j + 3 <= |scheme| {
        assert !SeparatorAt(scheme, j);
      } else if j + 2 == |scheme| {
        assert s[j + 2] == ':';
      } else {
        assert s[j + 1] == ':';
      }
    }
    SeparatorIs(s, |scheme|);
  }

  // ----- Trimming -----

  lemma LetterIsBlack(s: string)
    requires HasScheme(s + ":")
    ensures s != "" && !White(s[0])
  {
    var i := IndexOf(s + ":", ':');
    assert Scheme((s + ":")[..i]);
    assert (s + ":")[..i][0] == s[0];
  }

  lemma {:induction false} TrimEndPath(front: string, path: string)
    requires path != "" && !White(path[0])
    ensures TrimEnd(front + path) == front + TrimEnd(path)
    ensures TrimEnd(path) != "" && TrimEnd(path)[0] == path[0] && TrimEnd(path) <= path
    decreases |path|
  {
    var s := front + path;
    if White(path[|path| - 1]) {
      var shorter := path[..|path| - 1];
      assert s[..|s| - 1] == front + shorter;
      TrimEndPath(front, shorter);
    }
  }

  lemma TrimEndEmpty(path: string)
    requires path != ""
    ensures TrimEnd(path) == path <==> !White(path[|path| - 1])
  {
    TrimEndShorter(path[..|path| - 1]);
  }

  lemma {:induction false} TrimEndShorter(s: string)
    ensures |TrimEnd(s)| <= |s|
  {
    if s != "" {
      TrimEndShorter(s[..|s| - 1]);
    }
  }

  /** Printing a URL and parsing the text gives it back, the scheme's own port left out, exactly
      if its host can be told from the text and its path does not end in white space. */
  lemma PrintedReadsBack(u: Url)
    requires Shaped(u)
    ensures Parse(AbsoluteText(u)) == Ok(Shown(u)) <==> GoodHost(u.host) && !White(u.path[|u.path| - 1])
  {
    hide ParseAuthority, Clean, HasScheme, HostText, PortText, GoodHost, Separator, ParseTrimmed;
    var a, front := Authority(u), u.scheme + "://" + Authority(u);
    var path := TrimEnd(u.path);
    assert AbsoluteText(u) == front + u.path;
    LetterIsBlack(u.scheme);
    assert (front + u.path)[0] == u.scheme[0];
    assert TrimStart(front + u.path) == front + u.path;
    TrimEndPath(front, u.path);
    assert front + path == u.scheme + "://" + (a + path);
    AuthorityReads(u.host, ShownPort(u));
    ParseParts(u.scheme, a, path);
    CleanPrefix(path, u.path);
    TrimEndEmpty(u.path);
  }

  lemma CleanPrefix(a: string, b: string)
    requires a <= b && Clean(b)
    ensures Clean(a)
  {
  }

  /** So a parsed URL prints to a text that parses to the same URL, under the same condition. */
  lemma ParsedReadsBack(input: string)
    requires Parse(input).Ok?
    ensures var u := Parse(input).value;
            u.path != ""
            && (Parse(AbsoluteText(u)) == Ok(Shown(u)) <==> GoodHost(u.host) && !White(u.path[|u.path| - 1]))
  {
    hide Parse, AbsoluteText, GoodHost;
    ParsedIsShaped(input);
    PrintedReadsBack(Parse(input).value);
  }

  // ----- Users and ports -----

  /** A user in front of the last `@` is dropped. */
  lemma UserDropped(user: string, a: string)
    requires '@' !in a
    ensures ParseAuthority(user + "@" + a) == ParseAuthority(a)
  {
    hide HostAndPort, PortOf;
    var all := user + "@" + a;
    assert forall j :: |user| < j < |all| ==> all[j] == a[j - |user| - 1];
    LastIndexUnique(all, '@', |user|);
    assert all[|user| + 1..] == a;
    NoUser(a);
  }

  /** The port is left out exactly if there is none or it is the scheme's own. */
  lemma PortLeftOut(u: Url)
    ensures ShownPort(u)
            == if (u.scheme == "http" && u.port == Some(80)) || (u.scheme == "https" && u.port == Some(443)) then None
               else u.port
  {
  }

  /** Behind a host in any case: nothing and a lone colon are no port, a number below 65536 is one,
      and any other text is an error; so is a host that is empty. */
  lemma PortsRead(host: string, text: string)
    requires HostChars(host) && (host != "" ==> host[0] != '[') && '@' !in text && ':' !in text
    ensures ParseAuthority(host + ":" + text)
            == if host == "" then Err(NoHost)
               else if text == "" then Ok((Lower(host), None))
               else match ParseUnsigned(text, 10, 65536) case None => Err(BadPort) case Some(n) => Ok((Lower(host), Some(n)))
  {
    hide ParseUnsigned;
    var a := host + ":" + text;
    NoUser(a);
    assert forall j :: |host| < j < |a| ==> a[j] == text[j - |host| - 1];
    LastIndexUnique(a, ':', |host|);
    assert a[..|host|] == host && a[|host| + 1..] == text;
  }

  // ----- Where parsing and printing fall short -----

  /** The parsed scheme is one exactly if there is no colon before the `://`; a second colon
      there is let through with whatever follows it. */
  lemma ParsedScheme(input: string)
    requires Parse(input).Ok?
    ensures Scheme(Parse(input).value.scheme) <==> ':' !in Trim(input)[..Separator(Trim(input))]
  {
    hide ParseAuthority, PathOf, Clean;
    var s := Trim(input)[..Separator(Trim(input))];
    var t := Before(s + ":", ':');
    if ':' in s {
      var k :| 0 <= k < |s| && s[k] == ':';
      LowerKeeps(s, k);
      assert !SchemeChar(Lower(s)[k]);
    } else {
      IndexUnique(s + ":", ':', |s|);
      assert t == s;
      forall k | 0 <= k < |s| ensures SchemeChar(Lower(s)[k]) && (k == 0 ==> Letter(Lower(s)[k])) {
        LowerKeeps(s, k);
      }
    }
  }

  lemma PlainScheme(s: string)
    requires Scheme(s)
    ensures SchemeText(s)
  {
    forall k | 0 <= k < |s| ensures s[k] != ':' && !SeparatorAt(s, k) {
      assert SchemeChar(s[k]);
    }
    SeparatorIs(s, |s|);
    IndexUnique(s + ":", ':', |s|);
    assert (s + ":")[..|s|] == s;
  }

  /** A text that begins with a scheme and does not end in white space is not trimmed. */
  lemma NotTrimmed(s: string)
    requires s != "" && !White(s[0]) && !White(s[|s| - 1])
    ensures Trim(s) == s
  {
  }

  /** A URL without a path. */
  lemma ParseNoPath(scheme: string, a: string)
    requires SchemeText(scheme) && a != "" && forall k :: 0 <= k < |a| ==> !Ends(a[k])
    requires ParseAuthority(a).Ok?
    ensures ParseTrimmed(scheme + "://" + a)
            == Ok(Url(Lower(scheme), ParseAuthority(a).value.0, ParseAuthority(a).value.1, "/"))
  {
    hide ParseAuthority, HasScheme, Separator, ParseTrimmed;
    ParseServer(scheme, a);
    assert AuthorityLength(a) == |a|;
    assert a[..|a|] == a && a[|a|..] == "";
    assert PathOf("") == "/";
    assert Clean("/");
  }

  lemma PlainHost(host: string)
    requires host != "" && Lower(host) == host && HostChars(host) && ':' !in host && host[0] != '['
    ensures ParseAuthority(host) == Ok((host, None))
  {
    hide ParseAuthority;
    PlainReads(host, None);
    assert host + "" == host;
  }

  lemma ColonScheme()
    ensures SchemeText("a:b") && !Scheme("a:b") && Lower("a:b") == "a:b"
  {
    var s := "a:b";
    assert s + ":" == "a:b:" && s[1] == ':';
    IndexUnique(s + ":", ':', 1);
    assert (s + ":")[..1] == "a";
    forall k | 0 <= k < 3 ensures !SeparatorAt(s, k) {
    }
    SeparatorIs(s, 3);
    assert !SchemeChar(s[1]);
  }

  /** A scheme that is none, accepted. */
  lemma ColonSchemeParses()
    ensures Parse("a:b://host") == Ok(Url("a:b", "host", None, "/")) && !Scheme("a:b")
  {
    hide ParseTrimmed, ParseAuthority, Trim;
    ColonScheme();
    PlainHost("host");
    ParseNoPath("a:b", "host");
    assert "a:b" + "://" + "host" == "a:b://host";
    NotTrimmed("a:b://host");
  }

  /** A host without an opening bracket, in front of a port. */
  lemma HostBeforePort(host: string, p: nat)
    requires host != "" && Lower(host) == host && HostChars(host) && host[0] != '[' && p < 65536
    ensures ParseAuthority(host + PortText(Some(p))) == Ok((host, Some(p)))
  {
    hide Lower, Numeral, ParseUnsigned;
    var t := PortText(Some(p));
    var a := host + t;
    PortPlain(Some(p));
    PortReads(Some(p));
    NoUser(a);
    LastIndexUnique(a, ':', |host|);
    assert a[..|host|] == host && a[|host| + 1..] == t[1..];
  }

  const ODD_HOST := Url("http", "a]:b", Some(80), "/")

  lemma PortEighty()
    ensures PortText(Some(80)) == ":80"
  {
    assert Numeral(8, 10) == "8" && Numeral(80, 10) == Numeral(8, 10) + "0";
  }

  lemma OddHostIsOdd()
    ensures HostChars("a]:b") && Lower("a]:b") == "a]:b" && !GoodHost("a]:b")
    ensures HostText("a]:b") == "[a]:b]" && "a]:b"[0] != '['
  {
    assert "a]:b"[2] == ':' && "a]:b"[1] == ']';
  }

  lemma OddPrinted()
    ensures AbsoluteText(ODD_HOST) == "http://[a]:b]/"
  {
    hide HostText, PortText;
    OddHostIsOdd();
    assert ShownPort(ODD_HOST) == None;
    assert PortText(None) == "" by { NoPortText(); }
    assert "http" + "://" + (("[a]:b]" + "") + "/") == "http://[a]:b]/";
  }

  lemma NoPortText()
    ensures PortText(None) == ""
  {
  }

  lemma SchemeHttp()
    ensures SchemeText("http") && Lower("http") == "http"
  {
    PlainScheme("http");
  }

  lemma OddTextParses()
    ensures Parse("http://a]:b:80/") == Ok(ODD_HOST)
  {
    hide ParseTrimmed, ParseAuthority, Trim, PortText, HostChars, SchemeText, Lower;
    SchemeHttp();
    OddHostIsOdd();
    HostBeforePort("a]:b", 80);
    PortEighty();
    assert "a]:b" + ":80" == "a]:b:80";
    assert forall k :: 0 <= k < 7 ==> !Ends("a]:b:80"[k]);
    ParseParts("http", "a]:b:80", "/");
    assert Clean("/");
    assert "http" + "://" + ("a]:b:80" + "/") == "http://a]:b:80/";
    NotTrimmed("http://a]:b:80/");
  }

  /** The first closing bracket ends the host. */
  lemma OddPrintedParses()
    ensures var r := Parse("http://[a]:b]/"); r.Ok? ==> |r.value.host| < |ODD_HOST.host|
  {
    hide ParseTrimmed, ParseAuthority, Trim, SchemeText, Lower, HostText;
    SchemeHttp();
    OddHostIsOdd();
    assert "a]:b"[1] == ']' && "a]:b"[2] == ':';
    BracketReads("a]:b", None);
    NoPortText();
    assert "[a]:b]" + "" == "[a]:b]";
    assert forall k :: 0 <= k < 6 ==> !Ends("[a]:b]"[k]);
    ParseParts("http", "[a]:b]", "/");
    assert "http" + "://" + ("[a]:b]" + "/") == "http://[a]:b]/";
    NotTrimmed("http://[a]:b]/");
  }

  /** A host in which the closing bracket comes before the colon: what it prints to does not
      parse to it again, with its port or without. */
  lemma OddHostDoesNotReadBack()
    ensures Parse("http://a]:b:80/") == Ok(ODD_HOST) && AbsoluteText(ODD_HOST) == "http://[a]:b]/"
    ensures Parse("http://[a]:b]/") != Ok(ODD_HOST) && Parse("http://[a]:b]/") != Ok(Shown(ODD_HOST))
  {
    hide Parse, AbsoluteText;
    OddTextParses();
    OddPrinted();
    OddPrintedParses();
  }

  const WHITE_PATH := Url("http", "h", None, "/x\U{A0}")

  lemma HostH()
    ensures Lower("h") == "h" && HostText("h") == "h" && HostChars("h") && GoodHost("h")
  {
  }

  const WHITE_REST := "h/x\U{A0}#f"

  lemma WhiteParts()
    ensures AuthorityLength(WHITE_REST) == 1 && WHITE_REST[..1] == "h" && PathOf(WHITE_REST[1..]) == "/x\U{A0}"
  {
    hide AuthorityLength, IndexOf;
    AuthorityLengthIs(WHITE_REST, 1);
    assert WHITE_REST[1..] == "/x\U{A0}#f";
    IndexUnique("/x\U{A0}#f", '#', 3);
    assert "/x\U{A0}#f"[..3] == "/x\U{A0}";
  }

  lemma WhitePathParses()
    ensures Parse("http://h/x\U{A0}#f") == Ok(WHITE_PATH)
  {
    hide ParseTrimmed, ParseAuthority, Trim, SchemeText, Lower, HostText, GoodHost, PathOf, AuthorityLength, IndexOf;
    SchemeHttp();
    HostH();
    PlainHost("h");
    ParseServer("http", WHITE_REST);
    WhiteParts();
    assert Clean("/x\U{A0}");
    assert "http" + "://" + WHITE_REST == "http://h/x\U{A0}#f";
    NotTrimmed("http://h/x\U{A0}#f");
  }

  /** A path in front of a fragment may end in white space; printed without the fragment, it
      does not come back. */
  lemma WhitePathDoesNotReadBack()
    ensures Parse("http://h/x\U{A0}#f") == Ok(WHITE_PATH)
    ensures Parse(AbsoluteText(WHITE_PATH)) != Ok(WHITE_PATH) && Shown(WHITE_PATH) == WHITE_PATH
  {
    hide Parse, AbsoluteText, GoodHost;
    WhitePathParses();
    ParsedReadsBack("http://h/x\U{A0}#f");
    assert White(WHITE_PATH.path[|WHITE_PATH.path| - 1]);
  }
}
