/**
 What packages/tls-engine/src/slicc_tls_engine.c accepts as a ClientHello: nothing but messages of
 the shape of section 4.1.2 of RFC 8446, in handshake records; and how it refuses the rest.
 */
module HelloSound {
  import opened Bytes
  import opened ClientHello
  import opened HelloParser

  // ----- Records -----

  /** Valid fragments of an unfinished message leave the reassembly at what comes behind them. */
  lemma {:induction false} AssembleThrough(have: seq<byte>, fs: seq<Fragment>, tail: seq<byte>, h: seq<byte>)
    requires IsHello(h) && AllValid(fs) && have + Carried(fs) < h
    ensures Assemble(have, Wire(fs) + tail) == Assemble(have + Carried(fs), tail)
    decreases |fs|
  {
    if fs == [] {
      assert have + [] == have && [] + tail == tail;
    } else {
      var f, more := fs[0], Wire(fs[1..]) + tail;
      assert Wire(fs) + tail == f.Framed() + more;
      assert have + Carried(fs) == have + f.body + Carried(fs[1..]);
      assert have < h && |have| + |f.body| <= |h|;
      ExaminePrefix(h, have);
      NextOfFramed(have, f, more, |f.Framed() + more|);
      assert (f.Framed() + more)[..|f.Framed() + more|] == f.Framed() + more;
      assert more[..|more|] == more;
      AssembleThrough(have + f.body, fs[1..], tail, h);
    }
  }

  /** A record that is no handshake record, of another major version, without a body, or with too
      long a one, is refused with the alert for it, whatever good records came before. */
  lemma BadRecord(fs: seq<Fragment>, h: seq<byte>, kind: byte, major: byte, minor: byte, len: nat, more: seq<byte>)
    requires IsHello(h) && AllValid(fs) && Carried(fs) < h && len < 65536
    requires kind != 22 || major != 3 || len == 0 || len > 16384
    ensures AssembleInput(Wire(fs) + ([kind, major, minor] + Put16(len) + more))
            == Refused(if kind != 22 then UnexpectedMessage else if major != 3 then ProtocolVersion
                       else if len == 0 then UnexpectedMessage else RecordOverflow)
  {
    var rest := [kind, major, minor] + Put16(len) + more;
    assert [] + Carried(fs) == Carried(fs);
    AssembleThrough([], fs, rest, h);
    ExaminePrefix(h, Carried(fs));
    assert rest[3] == Put16(len)[0] && rest[4] == Put16(len)[1];
  }

  /** A handshake message of another type, or one longer than 32768 bytes, is refused once its
      first four bytes are there. */
  lemma OtherMessage(f: Fragment, more: seq<byte>)
    requires f.Valid() && |f.body| >= 4
    ensures f.body[0] != 1 ==> AssembleInput(f.Framed() + more) == Refused(UnexpectedMessage)
    ensures f.body[0] == 1 && 4 + ThreeBytes(f.body[1], f.body[2], f.body[3]) > 32768 ==>
              AssembleInput(f.Framed() + more) == Refused(DecodeError)
  {
    var all := f.Framed() + more;
    NextOfFramed([], f, more, |all|);
    assert all[..|all|] == all && more[..|more|] == more;
    assert [] + f.body == f.body;
    assert Assemble([], all) == Assemble(f.body, more);
  }

  /** A buffer full of an unfinished ClientHello is refused. */
  lemma FullBuffer(fs: seq<Fragment>, m: seq<byte>)
    requires IsHello(m) && AllValid(fs) && Carried(fs) == m && |Wire(fs)| > 40 * 1024
    ensures AssembleInput(Wire(fs)[..40 * 1024]) == Refused(DecodeError)
  {
    assert [] + Carried(fs) == m;
    Reassembles([], fs, m, 40 * 1024);
  }

  // ----- Messages -----

  /** An extension as its kind and body. */
  datatype Raw = Raw(kind: nat, body: seq<byte>)

  predicate RawFits(x: Raw) {
    x.kind < 65536 && |x.body| < 65536
  }

  predicate AllRawFit(xs: seq<Raw>) {
    forall k :: 0 <= k < |xs| ==> RawFits(xs[k])
  }

  function RawBytes(xs: seq<Raw>): seq<byte>
    requires AllRawFit(xs)
  {
    if xs == [] then [] else Put16(xs[0].kind) + Put16(|xs[0].body|) + xs[0].body + RawBytes(xs[1..])
  }

  /** The name in a server_name body: the first host name behind entries of other kinds, or none. */
  predicate NameIn(body: seq<byte>, others: seq<ServerNameEntry>, name: seq<byte>, behind: seq<byte>) {
    && (forall k :: 0 <= k < |others| ==> others[k].kind != 0 && |others[k].name| < 65536)
    && |name| <= 255 && (name == [] ==> behind == [])
    && var list := EntryBytes(others) + (if name == [] then [] else [0] + Put16(|name|) + name + behind);
       |list| < 65536 && body == Put16(|list|) + list
  }

  ghost predicate Named(body: seq<byte>, name: seq<byte>) {
    exists others, behind :: NameIn(body, others, name, behind)
  }

  /** The protocols in an ALPN body: a list of names, none of them empty. */
  ghost predicate Listed(body: seq<byte>, alpn: seq<byte>) {
    exists names :: Names(names) && names != [] && alpn == NameBytes(names) && |alpn| < 65536 && body == Put16(|alpn|) + alpn
  }

  lemma BeParts(p: seq<byte>, at: nat)
    requires at + 2 <= |p|
    ensures Be16(p, at) < 65536 && p[at..at + 2] == Put16(Be16(p, at))
  {
    TwoBytes(p[at], p[at + 1]);
    assert p[at..at + 2] == [p[at], p[at + 1]];
  }

  lemma TwoBytes(a: byte, b: byte)
    ensures var n := BigEndian(a, b); n < 65536 && n / 256 == a && n % 256 == b
  {
  }

  lemma {:induction false} NamesSound(p: seq<byte>)
    requires WellFormedNames(p)
    ensures exists names :: NamesAre(p, names)
    decreases |p|
  {
    hide NamesAre;
    if p == [] {
      NoNames();
    } else {
      var len, rest := p[0], p[1 + p[0]..];
      OfferedStep(p, []);
      NamesSound(rest);
      var more :| NamesAre(rest, more);
      assert p == [len] + p[1..1 + len] + rest;
      MoreNames(p[1..1 + len], rest, more);
    }
  }

  predicate NamesAre(p: seq<byte>, names: seq<seq<byte>>) {
    Names(names) && NameBytes(names) == p && (p != [] ==> names != [])
  }

  lemma NoNames()
    ensures NamesAre([], [])
  {
  }

  lemma MoreNames(name: seq<byte>, rest: seq<byte>, more: seq<seq<byte>>)
    requires NamesAre(rest, more) && 1 <= |name| < 256
    ensures NamesAre([|name|] + name + rest, [name] + more)
  {
    assert ([name] + more)[1..] == more;
  }

  lemma AlpnSound(body: seq<byte>)
    requires ParseAlpn(body).Ok?
    ensures |body| < 65538 && Listed(body, ParseAlpn(body).value)
  {
    var alpn := body[2..];
    BeParts(body, 0);
    NamesSound(alpn);
    var names :| NamesAre(alpn, names);
    assert body == body[0..2] + alpn;
  }

  lemma {:induction false} EntriesSound(p: seq<byte>)
    requires SniEntries(p).Ok?
    ensures exists others, behind :: EntriesAre(p, others, SniEntries(p).value, behind)
    decreases |p|
  {
    hide EntriesAre, Be16, EntryBytes;
    if p == [] {
      NoEntries();
    } else {
      var n := Be16(p, 1);
      EntryParts(p);
      if p[0] == 0 {
        FirstHost(p[3..3 + n], p[3 + n..]);
      } else {
        EntriesSound(p[3 + n..]);
        var others, behind :| EntriesAre(p[3 + n..], others, SniEntries(p).value, behind);
        MoreEntries(p, others, SniEntries(p).value, behind, n);
      }
    }
  }

  lemma EntryParts(p: seq<byte>)
    requires |p| >= 3 && |p| - 3 >= Be16(p, 1)
    ensures var n := Be16(p, 1); n < 65536 && p == [p[0]] + Put16(n) + p[3..3 + n] + p[3 + n..]
  {
    hide Be16;
    BeParts(p, 1);
    var n := Be16(p, 1);
    assert p == [p[0]] + p[1..3] + p[3..3 + n] + p[3 + n..];
  }

  lemma NoEntries()
    ensures EntriesAre([], [], [], [])
  {
  }

  lemma FirstHost(name: seq<byte>, behind: seq<byte>)
    requires 1 <= |name| <= 255
    ensures EntriesAre([0] + Put16(|name|) + name + behind, [], name, behind)
  {
    assert [] + ([0] + Put16(|name|) + name + behind) == [0] + Put16(|name|) + name + behind;
  }

  predicate EntriesAre(p: seq<byte>, others: seq<ServerNameEntry>, name: seq<byte>, behind: seq<byte>) {
    && (forall k :: 0 <= k < |others| ==> others[k].kind != 0 && |others[k].name| < 65536)
    && |name| <= 255 && (name == [] ==> behind == [])
    && p == EntryBytes(others) + (if name == [] then [] else [0] + Put16(|name|) + name + behind)
  }

  lemma MoreEntries(p: seq<byte>, others: seq<ServerNameEntry>, name: seq<byte>, behind: seq<byte>, n: nat)
    requires n < 65536 && |p| >= 3 + n && p[0] != 0 && p == [p[0]] + Put16(n) + p[3..3 + n] + p[3 + n..]
    requires EntriesAre(p[3 + n..], others, name, behind)
    ensures EntriesAre(p, [ServerNameEntry(p[0], p[3..3 + n])] + others, name, behind)
  {
    var all := [ServerNameEntry(p[0], p[3..3 + n])] + others;
    assert all[1..] == others;
    assert EntryBytes(all) == [p[0]] + Put16(n) + p[3..3 + n] + EntryBytes(others);
  }

  lemma SniSound(body: seq<byte>)
    requires ParseSni(body).Ok? && |body| < 65538
    ensures Named(body, ParseSni(body).value)
  {
    BeParts(body, 0);
    assert body == body[0..2] + body[2..];
    EntriesSound(body[2..]);
    var others, behind :| EntriesAre(body[2..], others, ParseSni(body).value, behind);
    assert NameIn(body, others, ParseSni(body).value, behind);
  }

  /** One more of a kind of which there may be only one. */
  predicate AtMostOne(xs: seq<Raw>, kind: nat, seen: bool) {
    && (forall i, k :: 0 <= i < k < |xs| && xs[i].kind == kind ==> xs[k].kind != kind)
    && (seen ==> forall k :: 0 <= k < |xs| ==> xs[k].kind != kind)
  }

  ghost predicate Explains(xs: seq<Raw>, sni: Option<seq<byte>>, alpn: Option<seq<byte>>, offer: Offer) {
    && AtMostOne(xs, 0, sni.Some?) && AtMostOne(xs, 16, alpn.Some?)
    && (forall k :: 0 <= k < |xs| && xs[k].kind == 0 ==> Named(xs[k].body, offer.sni))
    && (forall k :: 0 <= k < |xs| && xs[k].kind == 16 ==> Listed(xs[k].body, offer.alpn))
    && (sni.Some? ==> offer.sni == sni.value) && (alpn.Some? ==> offer.alpn == alpn.value)
    && ((forall k :: 0 <= k < |xs| ==> xs[k].kind != 0) && sni.None? ==> offer.sni == [])
    && ((forall k :: 0 <= k < |xs| ==> xs[k].kind != 16) && alpn.None? ==> offer.alpn == [])
  }

  lemma {:induction false} ExtensionsSound(p: seq<byte>, sni: Option<seq<byte>>, alpn: Option<seq<byte>>)
    requires ParseExtensions(p, sni, alpn).Ok?
    ensures exists xs :: Read(p, xs, sni, alpn, ParseExtensions(p, sni, alpn).value)
    decreases |p|
  {
    hide ParseExtension, Read, Be16;
    var offer := ParseExtensions(p, sni, alpn).value;
    if p == [] {
      NothingRead(sni, alpn);
    } else {
      var n := Be16(p, 2);
      var x := Raw(Be16(p, 0), p[4..4 + n]);
      var (sni', alpn') := ParseExtension(x.kind, x.body, sni, alpn).value;
      ExtensionParts(p);
      ExtensionsSound(p[4 + n..], sni', alpn');
      var xs :| Read(p[4 + n..], xs, sni', alpn', offer);
      MoreRead(x, xs, p[4 + n..], sni, alpn, sni', alpn', offer);
    }
  }

  /** These are the extensions, and the offer is what they hold. */
  ghost predicate Read(p: seq<byte>, xs: seq<Raw>, sni: Option<seq<byte>>, alpn: Option<seq<byte>>, offer: Offer) {
    AllRawFit(xs) && RawBytes(xs) == p && Explains(xs, sni, alpn, offer)
  }

  lemma NothingRead(sni: Option<seq<byte>>, alpn: Option<seq<byte>>)
    ensures Read([], [], sni, alpn, Offer(if sni.Some? then sni.value else [], if alpn.Some? then alpn.value else []))
  {
  }

  lemma ExtensionParts(p: seq<byte>)
    requires |p| >= 4 && |p| - 4 >= Be16(p, 2)
    ensures var n := Be16(p, 2);
            n < 65536 && Be16(p, 0) < 65536 && p == Put16(Be16(p, 0)) + Put16(n) + p[4..4 + n] + p[4 + n..]
  {
    hide Be16;
    BeParts(p, 0);
    BeParts(p, 2);
    var n := Be16(p, 2);
    assert p == p[0..2] + p[2..4] + p[4..4 + n] + p[4 + n..];
  }

  lemma MoreRead(x: Raw, xs: seq<Raw>, rest: seq<byte>, sni: Option<seq<byte>>, alpn: Option<seq<byte>>,
                 sni': Option<seq<byte>>, alpn': Option<seq<byte>>, offer: Offer)
    requires RawFits(x) && Read(rest, xs, sni', alpn', offer)
    requires ParseExtension(x.kind, x.body, sni, alpn) == Ok((sni', alpn'))
    ensures Read(Put16(x.kind) + Put16(|x.body|) + x.body + rest, [x] + xs, sni, alpn, offer)
  {
    hide Explains, ParseExtension;
    var all := [x] + xs;
    assert all[1..] == xs;
    ExtensionIs(x, sni, alpn);
    ExplainsMore(x, xs, sni, alpn, sni', alpn', offer);
  }

  lemma ExtensionIs(x: Raw, sni: Option<seq<byte>>, alpn: Option<seq<byte>>)
    requires RawFits(x) && ParseExtension(x.kind, x.body, sni, alpn).Ok?
    ensures var (sni', alpn') := ParseExtension(x.kind, x.body, sni, alpn).value;
            && (x.kind == 0 ==> sni.None? && sni'.Some? && Named(x.body, sni'.value))
            && (x.kind != 0 ==> sni' == sni)
            && (x.kind == 16 ==> alpn.None? && alpn'.Some? && Listed(x.body, alpn'.value))
            && (x.kind != 16 ==> alpn' == alpn)
  {
    hide Named, Listed, ParseSni, ParseAlpn;
    if x.kind == 0 && sni.None? {
      SniSound(x.body);
    } else if x.kind == 16 && alpn.None? {
      AlpnSound(x.body);
    }
  }

  lemma ExplainsMore(x: Raw, xs: seq<Raw>, sni: Option<seq<byte>>, alpn: Option<seq<byte>>,
                     sni': Option<seq<byte>>, alpn': Option<seq<byte>>, offer: Offer)
    requires Explains(xs, sni', alpn', offer)
    requires if x.kind == 0 then sni.None? && sni'.Some? && Named(x.body, sni'.value) else sni' == sni
    requires if x.kind == 16 then alpn.None? && alpn'.Some? && Listed(x.body, alpn'.value) else alpn' == alpn
    ensures Explains([x] + xs, sni, alpn, offer)
  {
    hide Named, Listed, AtMostOne;
    var all := [x] + xs;
    AtMostOneMore(x, xs, 0, sni.Some?, sni'.Some?);
    AtMostOneMore(x, xs, 16, alpn.Some?, alpn'.Some?);
    assert all[0] == x && forall k :: 1 <= k < |all| ==> all[k] == xs[k - 1];
    assert forall k :: 0 <= k < |xs| ==> xs[k] == all[k + 1];
  }

  lemma AtMostOneMore(x: Raw, xs: seq<Raw>, kind: nat, seen: bool, seen': bool)
    requires AtMostOne(xs, kind, seen') && seen' == (seen || x.kind == kind) && !(seen && x.kind == kind)
    ensures AtMostOne([x] + xs, kind, seen)
  {
    var all := [x] + xs;
    assert all[0] == x && forall k :: 1 <= k < |all| ==> all[k] == xs[k - 1];
  }

  /** The shape of a message: its five parts, the extensions as kinds and bodies. */
  ghost predicate Shape(p: seq<byte>, front: seq<byte>, session: seq<byte>, suites: seq<byte>, compression: seq<byte>,
                        tail: seq<byte>) {
    && |front| == 34 && |session| <= 32 && 2 <= |suites| < 65536 && |suites| % 2 == 0 && 1 <= |compression| < 256
    && p == front + ([|session|] + session) + (Put16(|suites|) + suites) + ([|compression|] + compression) + tail
  }

  ghost predicate Tail(tail: seq<byte>, xs: seq<Raw>, offer: Offer) {
    if tail == [] then xs == [] && offer == Offer([], [])
    else
      && AllRawFit(xs) && |RawBytes(xs)| < 65536 && tail == Put16(|RawBytes(xs)|) + RawBytes(xs)
      && Explains(xs, None, None, offer)
  }

  predicate SessionIn(p: seq<byte>, front: seq<byte>, session: seq<byte>, q: seq<byte>) {
    |front| == 34 && |session| <= 32 && p == front + ([|session|] + session) + q
  }

  predicate SuitesIn(q: seq<byte>, suites: seq<byte>, r: seq<byte>) {
    2 <= |suites| < 65536 && |suites| % 2 == 0 && q == (Put16(|suites|) + suites) + r
  }

  predicate CompressionIn(r: seq<byte>, compression: seq<byte>, tail: seq<byte>) {
    1 <= |compression| < 256 && r == ([|compression|] + compression) + tail
  }

  lemma SessionSound(p: seq<byte>)
    requires AfterSession(p).Some?
    ensures exists front, session :: SessionIn(p, front, session, AfterSession(p).value)
  {
    var front, session := p[..34], p[35..35 + p[34]];
    assert p == front + ([|session|] + session) + p[35 + p[34]..];
    assert SessionIn(p, front, session, AfterSession(p).value);
  }

  lemma SuitesSound(p: seq<byte>)
    requires AfterSuites(p).Some?
    ensures exists suites :: SuitesIn(p, suites, AfterSuites(p).value)
  {
    var n := Be16(p, 0);
    BeParts(p, 0);
    var suites := p[2..2 + n];
    assert p == (p[0..2] + suites) + p[2 + n..];
    assert SuitesIn(p, suites, AfterSuites(p).value);
  }

  lemma CompressionSound(p: seq<byte>)
    requires AfterCompression(p).Some?
    ensures exists compression :: CompressionIn(p, compression, AfterCompression(p).value)
  {
    var compression := p[1..1 + p[0]];
    assert p == ([p[0]] + compression) + p[1 + p[0]..];
    assert CompressionIn(p, compression, AfterCompression(p).value);
  }

  /** Whatever is accepted has the shape of a ClientHello, with at most one server_name and one ALPN
      extension; and the offer is what those two hold. */
  lemma HelloIsSound(p: seq<byte>)
    requires ParseHello(p).Ok?
    ensures exists front, session, suites, compression, tail, xs ::
              Shape(p, front, session, suites, compression, tail) && Tail(tail, xs, ParseHello(p).value)
  {
    hide ParseExtensions, AfterSession, AfterSuites, AfterCompression, Tail, Shape, SessionIn, SuitesIn, CompressionIn;
    var q := AfterSession(p).value;
    var r := AfterSuites(q).value;
    var tail := AfterCompression(r).value;
    SessionSound(p);
    SuitesSound(q);
    CompressionSound(r);
    TailSound(p, tail);
    var front, session :| SessionIn(p, front, session, q);
    var suites :| SuitesIn(q, suites, r);
    var compression :| CompressionIn(r, compression, tail);
    ShapeJoins(p, front, session, suites, compression, tail, q, r);
    var xs :| Tail(tail, xs, ParseHello(p).value);
    assert Shape(p, front, session, suites, compression, tail) && Tail(tail, xs, ParseHello(p).value);
  }

  lemma TailSound(p: seq<byte>, tail: seq<byte>)
    requires ParseHello(p).Ok? && BeforeExtensions(p) == Some(tail)
    ensures exists xs :: Tail(tail, xs, ParseHello(p).value)
  {
    hide BeforeExtensions, Tail, ParseExtensions, Read, Be16;
    if tail == [] {
      NoTail();
    } else {
      ExtensionsSound(tail[2..], None, None);
      var xs :| Read(tail[2..], xs, None, None, ParseHello(p).value);
      TailIs(tail, xs, ParseHello(p).value);
    }
  }

  lemma NoTail()
    ensures Tail([], [], Offer([], []))
  {
  }

  lemma TailIs(tail: seq<byte>, xs: seq<Raw>, offer: Offer)
    requires |tail| >= 2 && Be16(tail, 0) == |tail| - 2 && Read(tail[2..], xs, None, None, offer)
    ensures Tail(tail, xs, offer)
  {
    hide Be16, Explains;
    BeParts(tail, 0);
    assert tail == tail[0..2] + tail[2..];
  }

  lemma ShapeJoins(p: seq<byte>, front: seq<byte>, session: seq<byte>, suites: seq<byte>, compression: seq<byte>,
                   tail: seq<byte>, q: seq<byte>, r: seq<byte>)
    requires SessionIn(p, front, session, q) && SuitesIn(q, suites, r) && CompressionIn(r, compression, tail)
    ensures Shape(p, front, session, suites, compression, tail)
  {
  }
}
