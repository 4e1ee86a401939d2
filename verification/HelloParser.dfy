/**
 The ClientHello parser of packages/tls-engine/src/slicc_tls_engine.c, proved against the
 serialisation of an abstract ClientHello (section 4.1.2 of RFC 8446, section 3 of RFC 6066,
 section 3.1 of RFC 7301).
 */
module HelloParser {
  import opened Bytes
  import opened ClientHello

  /** What the parser keeps: the first host name, and the body of the protocol list; empty
      when the client sent none. */
  datatype Offer = Offer(sni: seq<byte>, alpn: seq<byte>)

  // ----- What the parser computes -----

  function ParseSni(p: seq<byte>): Result<seq<byte>, Alert> {
    if |p| < 2 || Be16(p, 0) != |p| - 2 then Err(DecodeError) else SniEntries(p[2..])
  }

  function SniEntries(p: seq<byte>): Result<seq<byte>, Alert>
    decreases |p|
  {
    if p == [] then Ok([])
    else if |p| < 3 then Err(DecodeError)
    else
      var n := Be16(p, 1);
      if |p| - 3 < n then Err(DecodeError)
      else if p[0] == HOST_NAME then
        if n == 0 then Err(DecodeError)
        else if n >= SNI_SIZE then Err(UnrecognizedName)
        else Ok(p[3..3 + n])
      else SniEntries(p[3 + n..])
  }

  /** Length-prefixed names, none of them empty, that fill p. */
  predicate WellFormedNames(p: seq<byte>)
    decreases |p|
  {
    p == [] || (p[0] != 0 && p[0] < |p| && WellFormedNames(p[1 + p[0]..]))
  }

  function ParseAlpn(p: seq<byte>): Result<seq<byte>, Alert> {
    if |p| < 4 || Be16(p, 0) != |p| - 2 || !WellFormedNames(p[2..]) then Err(DecodeError) else Ok(p[2..])
  }

  function ParseExtensions(p: seq<byte>, sni: Option<seq<byte>>, alpn: Option<seq<byte>>): Result<Offer, Alert>
    decreases |p|
  {
    if p == [] then
      Ok(Offer(if sni.Some? then sni.value else [], if alpn.Some? then alpn.value else []))
    else if |p| < 4 then Err(DecodeError)
    else
      var n := Be16(p, 2);
      if |p| - 4 < n then Err(DecodeError)
      else match ParseExtension(Be16(p, 0), p[4..4 + n], sni, alpn)
        case Err(alert) => Err(alert)
        case Ok((sni', alpn')) => ParseExtensions(p[4 + n..], sni', alpn')
  }

  function ParseExtension(kind: nat, body: seq<byte>, sni: Option<seq<byte>>, alpn: Option<seq<byte>>)
    : Result<(Option<seq<byte>>, Option<seq<byte>>), Alert>
  {
    if kind == EXT_SERVER_NAME then
      if sni.Some? then Err(IllegalParameter)
      else match ParseSni(body)
        case Err(alert) => Err(alert)
        case Ok(name) => Ok((Some(name), alpn))
    else if kind == EXT_ALPN then
      if alpn.Some? then Err(IllegalParameter)
      else match ParseAlpn(body)
        case Err(alert) => Err(alert)
        case Ok(names) => Ok((sni, Some(names)))
    else Ok((sni, alpn))
  }

  /** The part of the message behind the session id, the cipher suites and the compression
      methods; None when one of them is malformed. */
  function AfterSession(p: seq<byte>): Option<seq<byte>> {
    if |p| < 35 || p[34] > 32 || |p| < 35 + p[34] then None else Some(p[35 + p[34]..])
  }

  function AfterSuites(p: seq<byte>): Option<seq<byte>> {
    if |p| < 2 || Be16(p, 0) < 2 || Be16(p, 0) % 2 == 1 || |p| - 2 < Be16(p, 0) then None
    else Some(p[2 + Be16(p, 0)..])
  }

  function AfterCompression(p: seq<byte>): Option<seq<byte>> {
    if |p| < 1 || p[0] == 0 || |p| - 1 < p[0] then None else Some(p[1 + p[0]..])
  }

  function BeforeExtensions(p: seq<byte>): Option<seq<byte>> {
    match AfterSession(p)
    case None => None
    case Some(q) =>
      match AfterSuites(q)
      case None => None
      case Some(r) => AfterCompression(r)
  }

  function ParseHello(p: seq<byte>): Result<Offer, Alert> {
    match BeforeExtensions(p)
    case None => Err(DecodeError)
    case Some(rest) =>
      if rest == [] then Ok(Offer([], []))
      else if |rest| < 2 || Be16(rest, 0) != |rest| - 2 then Err(DecodeError)
      else ParseExtensions(rest[2..], None, None)
  }

  // ----- The loops -----

  lemma Be16Behind(p: seq<byte>, at: nat, k: nat)
    requires at + k + 2 <= |p|
    ensures Be16(p[at..], k) == Be16(p, at + k)
  {
  }

  /** `hello_sni`. */
  method HelloSni(p: seq<byte>) returns (r: Result<seq<byte>, Alert>)
    ensures r == ParseSni(p)
  {
    hide Be16;
    if |p| < 2 || Be16(p, 0) != |p| - 2 {
      return Err(DecodeError);
    }
    var at := 2;
    while at < |p|
      invariant 2 <= at <= |p|
      invariant ParseSni(p) == SniEntries(p[at..])
    {
      if |p| - at < 3 {
        return Err(DecodeError);
      }
      var n := Be16(p, at + 1);
      Be16Behind(p, at, 1);
      if |p| - at - 3 < n {
        return Err(DecodeError);
      }
      Resliced(p, at, at + 3, at + 3 + n);
      if p[at] == HOST_NAME {
        if n == 0 {
          return Err(DecodeError);
        }
        if n >= SNI_SIZE {
          return Err(UnrecognizedName);
        }
        return Ok(p[at + 3..at + 3 + n]);
      }
      at := at + 3 + n;
    }
    return Ok([]);
  }

  /** `hello_alpn`. */
  method HelloAlpn(p: seq<byte>) returns (r: Result<seq<byte>, Alert>)
    ensures r == ParseAlpn(p)
  {
    if |p| < 4 || Be16(p, 0) != |p| - 2 {
      return Err(DecodeError);
    }
    var at := 2;
    while at < |p|
      invariant 2 <= at <= |p|
      invariant WellFormedNames(p[2..]) == WellFormedNames(p[at..])
    {
      if p[at] == 0 || |p| - at - 1 < p[at] {
        return Err(DecodeError);
      }
      assert p[at..][1 + p[at]..] == p[at + 1 + p[at]..];
      at := at + 1 + p[at];
    }
    return Ok(p[2..]);
  }

  /** One extension of the loop of `hello_parse`: at most one of each of the two kinds. */
  method OneOfExtensions(kind: nat, body: seq<byte>, sni: Option<seq<byte>>, alpn: Option<seq<byte>>)
    returns (r: Result<(Option<seq<byte>>, Option<seq<byte>>), Alert>)
    ensures r == ParseExtension(kind, body, sni, alpn)
  {
    if kind == EXT_SERVER_NAME {
      if sni.Some? {
        return Err(IllegalParameter);
      }
      var name := HelloSni(body);
      if name.Err? {
        return Err(name.error);
      }
      return Ok((Some(name.value), alpn));
    } else if kind == EXT_ALPN {
      if alpn.Some? {
        return Err(IllegalParameter);
      }
      var names := HelloAlpn(body);
      if names.Err? {
        return Err(names.error);
      }
      return Ok((sni, Some(names.value)));
    }
    return Ok((sni, alpn));
  }

  /** The extension loop of `hello_parse`, from the list at `from`. */
  method HelloExtensions(p: seq<byte>, from: nat) returns (r: Result<Offer, Alert>)
    requires from <= |p|
    ensures r == ParseExtensions(p[from..], None, None)
  {
    var sni: Option<seq<byte>>, alpn: Option<seq<byte>> := None, None;
    var at := from;
    ghost var q := p[from..];
    while at < |p|
      invariant from <= at <= |p| && q == p[at..]
      invariant ParseExtensions(p[from..], None, None) == ParseExtensions(q, sni, alpn)
    {
      if |p| - at < 4 {
        return Err(DecodeError);
      }
      var kind, n := Be16(p, at), Be16(p, at + 2);
      assert kind == Be16(q, 0) && n == Be16(q, 2);
      if |p| - at - 4 < n {
        return Err(DecodeError);
      }
      var body := p[at + 4..at + 4 + n];
      assert q[4..4 + n] == body;
      var next := OneOfExtensions(kind, body, sni, alpn);
      if next.Err? {
        return Err(next.error);
      }
      sni, alpn := next.value.0, next.value.1;
      at := at + 4 + n;
      q := q[4 + n..];
    }
    return Ok(Offer(if sni.Some? then sni.value else [], if alpn.Some? then alpn.value else []));
  }

  /** The first half of `hello_parse`: where the extensions begin. */
  method SkipToExtensions(p: seq<byte>) returns (r: Option<nat>)
    ensures r.None? ==> BeforeExtensions(p).None?
    ensures r.Some? ==> r.value <= |p| && BeforeExtensions(p) == Some(p[r.value..])
  {
    var at := 2 + 32;
    if |p| < at + 1 || p[at] > 32 {
      return None;
    }
    at := at + 1 + p[at];
    if |p| < at + 2 {
      return None;
    }
    ghost var afterSession := p[at..];
    assert AfterSession(p) == Some(afterSession);
    var suites := Be16(p, at);
    assert suites == Be16(afterSession, 0);
    if suites < 2 || suites % 2 == 1 || |p| - at - 2 < suites {
      assert AfterSuites(afterSession) == None;
      return None;
    }
    at := at + 2 + suites;
    ghost var afterSuites := p[at..];
    assert afterSession[2 + suites..] == afterSuites;
    assert AfterSuites(afterSession) == Some(afterSuites);
    if |p| < at + 1 || p[at] == 0 || |p| - at - 1 < p[at] {
      assert AfterCompression(afterSuites) == None;
      return None;
    }
    assert afterSuites[1 + p[at]..] == p[at + 1 + p[at]..];
    return Some(at + 1 + p[at]);
  }

  /** `hello_parse`, on the message without its four-byte header. */
  method HelloParse(p: seq<byte>) returns (r: Result<Offer, Alert>)
    ensures r == ParseHello(p)
  {
    var begin := SkipToExtensions(p);
    if begin.None? {
      return Err(DecodeError);
    }
    var at := begin.value;
    if at == |p| {
      return Ok(Offer([], []));
    }
    if |p| - at < 2 || Be16(p, at) != |p| - at - 2 {
      return Err(DecodeError);
    }
    assert p[at..][2..] == p[at + 2..];
    r := HelloExtensions(p, at + 2);
  }

  // ----- The abstract ClientHello and its serialisation -----

  datatype Extension =
    | ServerName(names: seq<ServerNameEntry>)
    | Protocols(list: seq<seq<byte>>)
    | OtherExtension(kind: nat, data: seq<byte>)

  datatype ServerNameEntry = ServerNameEntry(kind: byte, name: seq<byte>)

  datatype Message = Message(
    version: seq<byte>,
    random: seq<byte>,
    sessionId: seq<byte>,
    suites: seq<byte>,
    compression: seq<byte>,
    extensions: Option<seq<Extension>>)
  {
    /** The shape section 4.1.2 of RFC 8446 gives the message; what fits its length fields. */
    predicate Valid() {
      && |version| == 2 && |random| == 32 && |sessionId| <= 32
      && 2 <= |suites| < 65536 && |suites| % 2 == 0
      && 1 <= |compression| < 256
      && (extensions.Some? ==> AllFit(extensions.value) && |ExtensionBytes(extensions.value)| < 65536)
    }

    function Serialize(): seq<byte>
      requires Valid()
    {
      version + random + ([|sessionId|] + sessionId) + (Put16(|suites|) + suites)
      + ([|compression|] + compression)
      + match extensions
        case None => []
        case Some(es) => Put16(|ExtensionBytes(es)|) + ExtensionBytes(es)
    }
  }

  function EntryBytes(names: seq<ServerNameEntry>): seq<byte>
    requires forall k :: 0 <= k < |names| ==> |names[k].name| < 65536
  {
    if names == [] then []
    else [names[0].kind] + Put16(|names[0].name|) + names[0].name + EntryBytes(names[1..])
  }

  predicate Names(list: seq<seq<byte>>) {
    forall k :: 0 <= k < |list| ==> 1 <= |list[k]| < 256
  }

  function NameBytes(list: seq<seq<byte>>): seq<byte>
    requires Names(list)
  {
    if list == [] then [] else [|list[0]|] + list[0] + NameBytes(list[1..])
  }

  predicate Fits(e: Extension) {
    match e
    case ServerName(names) =>
      (forall k :: 0 <= k < |names| ==> |names[k].name| < 65536) && |EntryBytes(names)| < 65534
    case Protocols(list) => Names(list) && |NameBytes(list)| < 65534
    case OtherExtension(kind, data) =>
      kind < 65536 && kind != 0 && kind != 16 && |data| < 65536
  }

  predicate AllFit(es: seq<Extension>) {
    forall k :: 0 <= k < |es| ==> Fits(es[k])
  }

  function Kind(e: Extension): nat {
    match e
    case ServerName(_) => 0
    case Protocols(_) => 16
    case OtherExtension(kind, _) => kind
  }

  function Body(e: Extension): (r: seq<byte>)
    requires Fits(e)
    ensures |r| < 65536
  {
    match e
    case ServerName(names) => Put16(|EntryBytes(names)|) + EntryBytes(names)
    case Protocols(list) => Put16(|NameBytes(list)|) + NameBytes(list)
    case OtherExtension(_, data) => data
  }

  function OneExtension(e: Extension): seq<byte>
    requires Fits(e) && Kind(e) < 65536
  {
    Put16(Kind(e)) + Put16(|Body(e)|) + Body(e)
  }

  function ExtensionBytes(es: seq<Extension>): seq<byte>
    requires AllFit(es)
  {
    if es == [] then [] else OneExtension(es[0]) + ExtensionBytes(es[1..])
  }

  // ----- What the engine makes of an abstract ClientHello -----

  /** The first host name of the list; the engine keeps names of 1 to 255 bytes. */
  function FirstHostName(names: seq<ServerNameEntry>): Result<seq<byte>, Alert> {
    if names == [] then Ok([])
    else if names[0].kind == 0 then
      if |names[0].name| == 0 then Err(DecodeError)
      else if |names[0].name| > 255 then Err(UnrecognizedName)
      else Ok(names[0].name)
    else FirstHostName(names[1..])
  }

  function Meaning(es: seq<Extension>, sni: Option<seq<byte>>, alpn: Option<seq<seq<byte>>>)
    : Result<(seq<byte>, seq<seq<byte>>), Alert>
  {
    if es == [] then Ok((if sni.Some? then sni.value else [], if alpn.Some? then alpn.value else []))
    else match es[0]
      case ServerName(names) =>
        if sni.Some? then Err(IllegalParameter)
        else (match FirstHostName(names)
          case Err(alert) => Err(alert)
          case Ok(name) => Meaning(es[1..], Some(name), alpn))
      case Protocols(list) =>
        if alpn.Some? then Err(IllegalParameter)
        else if list == [] then Err(DecodeError)
        else Meaning(es[1..], sni, Some(list))
      case OtherExtension(_, _) => Meaning(es[1..], sni, alpn)
  }

  // ----- The parser reads back what was serialised -----

  lemma {:induction false} EntriesRoundTrip(names: seq<ServerNameEntry>)
    requires forall k :: 0 <= k < |names| ==> |names[k].name| < 65536
    ensures SniEntries(EntryBytes(names)) == FirstHostName(names)
  {
    if names != [] {
      var e, rest := names[0], EntryBytes(names[1..]);
      var p := EntryBytes(names);
      var len := Put16(|e.name|);
      assert p == [e.kind] + len + e.name + rest;
      assert p[1] == len[0] && p[2] == len[1];
      assert p[3..3 + |e.name|] == e.name && p[3 + |e.name|..] == rest;
      EntriesRoundTrip(names[1..]);
    }
  }

  lemma {:induction false} NamesWellFormed(list: seq<seq<byte>>)
    requires Names(list)
    ensures WellFormedNames(NameBytes(list))
    ensures list != [] ==> |NameBytes(list)| >= 2
  {
    if list != [] {
      var p := NameBytes(list);
      assert p[1 + |list[0]|..] == NameBytes(list[1..]);
      NamesWellFormed(list[1..]);
    }
  }

  lemma BodyRoundTrip(e: Extension, sni: Option<seq<byte>>, alpn: Option<seq<seq<byte>>>)
    requires Fits(e) && (alpn.Some? ==> Names(alpn.value))
    ensures ParseExtension(Kind(e), Body(e), sni, Encoded(alpn)) ==
            match e
            case ServerName(names) =>
              if sni.Some? then Err(IllegalParameter)
              else (match FirstHostName(names)
                case Err(alert) => Err(alert)
                case Ok(name) => Ok((Some(name), Encoded(alpn))))
            case Protocols(list) =>
              if alpn.Some? then Err(IllegalParameter)
              else if list == [] then Err(DecodeError)
              else Ok((sni, Some(NameBytes(list))))
            case OtherExtension(_, _) => Ok((sni, Encoded(alpn)))
  {
    var body := Body(e);
    match e
    case ServerName(names) =>
      assert body[2..] == EntryBytes(names) && Be16(body, 0) == |EntryBytes(names)|;
      EntriesRoundTrip(names);
    case Protocols(list) =>
      assert body[2..] == NameBytes(list) && Be16(body, 0) == |NameBytes(list)|;
      NamesWellFormed(list);
    case OtherExtension(_, _) =>
  }

  function Encoded(alpn: Option<seq<seq<byte>>>): Option<seq<byte>>
    requires alpn.Some? ==> Names(alpn.value)
  {
    if alpn.Some? then Some(NameBytes(alpn.value)) else None
  }

  function EncodedResult(r: Result<(seq<byte>, seq<seq<byte>>), Alert>): Result<Offer, Alert>
    requires r.Ok? ==> Names(r.value.1)
  {
    match r
    case Err(alert) => Err(alert)
    case Ok((sni, list)) => Ok(Offer(sni, NameBytes(list)))
  }

  lemma OneExtensionParts(e: Extension, rest: seq<byte>)
    requires Fits(e)
    ensures var p := OneExtension(e) + rest;
            && |p| >= 4 + |Body(e)| && Be16(p, 0) == Kind(e) && Be16(p, 2) == |Body(e)|
            && p[4..4 + |Body(e)|] == Body(e) && p[4 + |Body(e)|..] == rest
  {
    var p := OneExtension(e) + rest;
    var kind, len := Put16(Kind(e)), Put16(|Body(e)|);
    assert p[0] == kind[0] && p[1] == kind[1] && p[2] == len[0] && p[3] == len[1];
  }

  lemma {:induction false} ExtensionsRoundTrip(es: seq<Extension>, sni: Option<seq<byte>>, alpn: Option<seq<seq<byte>>>)
    requires AllFit(es) && (alpn.Some? ==> Names(alpn.value))
    ensures Meaning(es, sni, alpn).Ok? ==> Names(Meaning(es, sni, alpn).value.1)
    ensures ParseExtensions(ExtensionBytes(es), sni, Encoded(alpn)) == EncodedResult(Meaning(es, sni, alpn))
  {
    if es != [] {
      var e, rest := es[0], ExtensionBytes(es[1..]);
      OneExtensionParts(e, rest);
      BodyRoundTrip(e, sni, alpn);
      match e
      case ServerName(names) =>
        if sni.None? && FirstHostName(names).Ok? {
          ExtensionsRoundTrip(es[1..], Some(FirstHostName(names).value), alpn);
        }
      case Protocols(list) =>
        if alpn.None? && list != [] {
          ExtensionsRoundTrip(es[1..], sni, Some(list));
        }
      case OtherExtension(_, _) =>
        ExtensionsRoundTrip(es[1..], sni, alpn);
    }
  }

  lemma SplitSession(m: Message, rest: seq<byte>)
    requires m.Valid()
    ensures AfterSession(m.version + m.random + ([|m.sessionId|] + m.sessionId) + rest) == Some(rest)
  {
    var p := m.version + m.random + ([|m.sessionId|] + m.sessionId) + rest;
    assert p[34] == |m.sessionId|;
    assert p[35 + |m.sessionId|..] == rest;
  }

  lemma SplitSuites(suites: seq<byte>, rest: seq<byte>)
    requires 2 <= |suites| < 65536 && |suites| % 2 == 0
    ensures AfterSuites(Put16(|suites|) + suites + rest) == Some(rest)
  {
    var p := Put16(|suites|) + suites + rest;
    assert p[0] == Put16(|suites|)[0] && p[1] == Put16(|suites|)[1];
    assert p[2 + |suites|..] == rest;
  }

  lemma SplitCompression(compression: seq<byte>, rest: seq<byte>)
    requires 1 <= |compression| < 256
    ensures AfterCompression([|compression|] + compression + rest) == Some(rest)
  {
    var p := [|compression|] + compression + rest;
    assert p[1 + |compression|..] == rest;
  }

  /** Parsing any serialised ClientHello gives what its extensions mean: the first host name
      and the protocol list, or the alert for a repeated or unusable extension. */
  lemma MessageRoundTrip(m: Message)
    requires m.Valid()
    ensures var meaning := Meaning(if m.extensions.Some? then m.extensions.value else [], None, None);
            (meaning.Ok? ==> Names(meaning.value.1)) && ParseHello(m.Serialize()) == EncodedResult(meaning)
  {
    var tail := match m.extensions
      case None => []
      case Some(es) => Put16(|ExtensionBytes(es)|) + ExtensionBytes(es);
    var afterSuites := [|m.compression|] + m.compression + tail;
    var afterSession := Put16(|m.suites|) + m.suites + afterSuites;
    assert m.Serialize() == m.version + m.random + ([|m.sessionId|] + m.sessionId) + afterSession;
    SplitSession(m, afterSession);
    SplitSuites(m.suites, afterSuites);
    SplitCompression(m.compression, tail);
    assert BeforeExtensions(m.Serialize()) == Some(tail);
    if m.extensions.Some? {
      var es := m.extensions.value;
      assert Be16(tail, 0) == |ExtensionBytes(es)| && tail[2..] == ExtensionBytes(es);
      ExtensionsRoundTrip(es, None, None);
    }
  }

  predicate Once(es: seq<Extension>, kind: nat) {
    forall i, j :: 0 <= i < j < |es| ==> !(Kind(es[i]) == kind && Kind(es[j]) == kind)
  }

  predicate Usable(e: Extension) {
    && (e.ServerName? ==> FirstHostName(e.names).Ok?)
    && (e.Protocols? ==> e.list != [])
  }

  /** The host name and the protocols a client offers, wherever its extensions stand. */
  function OfferedName(es: seq<Extension>): seq<byte> {
    if es == [] then []
    else if es[0].ServerName? && FirstHostName(es[0].names).Ok? then FirstHostName(es[0].names).value
    else OfferedName(es[1..])
  }

  function OfferedProtocols(es: seq<Extension>): seq<seq<byte>> {
    if es == [] then [] else if es[0].Protocols? then es[0].list else OfferedProtocols(es[1..])
  }

  function ExtensionsOf(m: Message): seq<Extension> {
    if m.extensions.Some? then m.extensions.value else []
  }

  /** A client that offers at most one list of names and one of protocols, both usable. */
  predicate Offers(m: Message) {
    && Once(ExtensionsOf(m), 0) && Once(ExtensionsOf(m), 16)
    && forall k :: 0 <= k < |ExtensionsOf(m)| ==> Usable(ExtensionsOf(m)[k])
  }

  /** Parsing the message of such a client gives exactly what it offers. */
  lemma OfferIsRead(m: Message)
    requires m.Valid() && Offers(m)
    ensures var es := ExtensionsOf(m);
            && Names(OfferedProtocols(es))
            && ParseHello(m.Serialize()) == Ok(Offer(OfferedName(es), NameBytes(OfferedProtocols(es))))
  {
    hide ParseHello, Meaning, Once, Usable;
    MessageRoundTrip(m);
    Unfitted(m);
    MeaningOfOffer(ExtensionsOf(m), None, None);
  }

  lemma Unfitted(m: Message)
    requires m.Valid()
    ensures AllFit(ExtensionsOf(m))
  {
  }

  /** With at most one server_name and one ALPN extension, among any others and in any order,
      parsing succeeds and yields exactly what the client offers. */
  lemma {:induction false} MeaningOfOffer(es: seq<Extension>, sni: Option<seq<byte>>, alpn: Option<seq<seq<byte>>>)
    requires AllFit(es) && Once(es, EXT_SERVER_NAME) && Once(es, EXT_ALPN)
    requires forall k :: 0 <= k < |es| ==> Usable(es[k])
    requires sni.Some? ==> forall k :: 0 <= k < |es| ==> Kind(es[k]) != EXT_SERVER_NAME
    requires alpn.Some? ==> forall k :: 0 <= k < |es| ==> Kind(es[k]) != EXT_ALPN
    ensures Meaning(es, sni, alpn) ==
            Ok((if sni.Some? then sni.value else OfferedName(es), if alpn.Some? then alpn.value else OfferedProtocols(es)))
  {
    if es != [] {
      var e, rest := es[0], es[1..];
      assert Usable(e) && Fits(e);
      match e
      case ServerName(names) =>
        MeaningOfOffer(rest, Some(FirstHostName(names).value), alpn);
      case Protocols(list) =>
        MeaningOfOffer(rest, sni, Some(list));
      case OtherExtension(_, _) =>
        MeaningOfOffer(rest, sni, alpn);
    }
  }

  // ----- Which protocols were offered -----

  predicate Offered(p: seq<byte>, name: seq<byte>)
    requires WellFormedNames(p)
    decreases |p|
  {
    p != [] && (p[1..1 + p[0]] == name || Offered(p[1 + p[0]..], name))
  }

  lemma OfferedStep(p: seq<byte>, name: seq<byte>)
    requires WellFormedNames(p) && p != []
    ensures 1 + p[0] <= |p| && WellFormedNames(p[1 + p[0]..])
    ensures Offered(p, name) <==> (p[0] == |name| && p[1..1 + p[0]] == name) || Offered(p[1 + p[0]..], name)
  {
  }

  /** `alpn_offered`. */
  method AlpnOffered(p: seq<byte>, name: seq<byte>) returns (b: bool)
    requires WellFormedNames(p)
    ensures b == Offered(p, name)
  {
    hide Offered, WellFormedNames;
    var at := 0;
    ghost var q := p;
    assert p[0..] == p;
    while at < |p|
      invariant 0 <= at <= |p| && q == p[at..] && WellFormedNames(q)
      invariant Offered(p, name) == Offered(q, name)
    {
      OfferedStep(q, name);
      Resliced(p, at, at + 1, at + 1 + p[at]);
      if p[at] == |name| && p[at + 1..at + 1 + p[at]] == name {
        return true;
      }
      q := q[1 + p[at]..];
      at := at + 1 + p[at];
    }
    NothingOffered(name);
    return false;
  }

  lemma NothingOffered(name: seq<byte>)
    ensures WellFormedNames([]) && !Offered([], name)
  {
  }

  /** A protocol counts as offered exactly when the client listed it. */
  lemma {:induction false} OfferedIsListed(list: seq<seq<byte>>, name: seq<byte>)
    requires Names(list) && WellFormedNames(NameBytes(list))
    ensures Offered(NameBytes(list), name) <==> name in list
  {
    if list != [] {
      var p := NameBytes(list);
      assert p[1..1 + |list[0]|] == list[0] && p[1 + |list[0]|..] == NameBytes(list[1..]);
      NamesWellFormed(list[1..]);
      OfferedIsListed(list[1..], name);
      assert list == [list[0]] + list[1..];
    }
  }
}
