/**
 What the response reader of crates/wasix-net/src/http/wire.rs accepts: nothing but lines, status
 lines, header lines and chunk sizes of the shapes written out here.
 */
module HttpSound {
  import opened Bytes
  import opened Text
  import Utf8
  import opened HttpBody
  import opened HttpHead

  // ----- Lines -----

  /** A line as bytes: the text, and behind it nothing but line breaks, the last of them the only
      line feed. */
  predicate LineOn(raw: seq<byte>, text: string, breaks: nat) {
    && 0 < breaks <= |raw| <= 65536 && raw[..|raw| - breaks] == Utf8.Encode(text)
    && (forall k :: |raw| - breaks <= k < |raw| ==> raw[k] == 10 || raw[k] == 13)
    && raw[|raw| - 1] == 10 && forall k :: 0 <= k < |raw| - 1 ==> raw[k] != 10
  }

  lemma {:induction false} ChompBreaks(line: seq<byte>)
    ensures Chomp(line) <= line
    ensures forall k :: |Chomp(line)| <= k < |line| ==> line[k] == 10 || line[k] == 13
    ensures line != [] && LineBreak(line[|line| - 1]) ==> |Chomp(line)| < |line|
  {
    if line != [] && LineBreak(line[|line| - 1]) {
      ChompBreaks(line[..|line| - 1]);
    }
  }

  lemma OneLineFeed(s: seq<byte>)
    ensures forall k :: 0 <= k < Reach(s) - 1 ==> s[k] != 10
  {
    assert Reach(s) - 1 <= NewlineAt(s);
  }

  /** A line that is read was there, and is all that was taken off the stream. */
  lemma LineSound(s: seq<byte>)
    requires ReadLine(s).result.Ok?
    ensures exists raw, breaks :: s == raw + ReadLine(s).rest && LineOn(raw, ReadLine(s).result.value, breaks)
  {
    hide Utf8.Decode, Utf8.Encode;
    var raw := s[..Reach(s)];
    assert s == raw + s[Reach(s)..];
    ChompBreaks(raw);
    Utf8.EncodeDecode(Chomp(raw));
    assert raw[|raw| - 1] == 10;
    OneLineFeed(s);
    var breaks := |raw| - |Chomp(raw)|;
    assert raw[..|raw| - breaks] == Chomp(raw);
    assert LineOn(raw, ReadLine(s).result.value, breaks);
  }

  // ----- Numbers -----

  /** Digits of the base that come to n, perhaps with a plus in front. */
  predicate Figures(s: string, base: nat, n: nat) {
    && s != "" && (s[0] == '+' ==> |s| > 1)
    && Digits(if s[0] == '+' then s[1..] else s, base) == Some(n)
  }

  lemma UnsignedSound(s: string, base: nat, size: nat)
    ensures forall n: nat :: ParseUnsigned(s, base, size) == Some(n) <==> Figures(s, base, n) && n < size
  {
  }

  // ----- Status lines -----

  predicate StatusOn(line: string, code: string, st: Status, behind: string) {
    && line == st.version + " " + (code + behind) && "HTTP/1." <= st.version && ' ' !in st.version
    && Figures(code, 10, st.code) && ' ' !in code && 100 <= st.code <= 999
    && (behind == " " + st.reason || (behind == "" && st.reason == ""))
  }

  lemma StatusSound(line: string)
    requires ParseStatus(line).Some?
    ensures exists code, behind :: StatusOn(line, code, ParseStatus(line).value, behind)
  {
    hide StatusOn, ParseStatus, IndexOf;
    StatusParts(line);
    var rest := line[IndexOf(line, ' ') + 1..];
    assert StatusOn(line, rest[..IndexOf(rest, ' ')], ParseStatus(line).value, rest[IndexOf(rest, ' ')..]);
  }

  lemma StatusParts(line: string)
    requires ParseStatus(line).Some?
    ensures IndexOf(line, ' ') < |line|
    ensures var rest := line[IndexOf(line, ' ') + 1..];
            var j := IndexOf(rest, ' ');
            StatusOn(line, rest[..j], ParseStatus(line).value, rest[j..])
  {
    hide ParseStatus, ParseUnsigned, Figures, IndexOf;
    StatusFields(line);
    var k := IndexOf(line, ' ');
    var rest := line[k + 1..];
    var j := IndexOf(rest, ' ');
    UnsignedSound(rest[..j], 10, 65536);
    Parted(line, k);
    CodeParted(rest, j);
    NoBlank(line, k);
    NoBlank(rest, j);
  }

  lemma StatusFields(line: string)
    requires ParseStatus(line).Some?
    ensures var k := IndexOf(line, ' ');
            && k < |line| && "HTTP/1." <= line[..k]
            && var rest, st := line[k + 1..], ParseStatus(line).value;
               var j := IndexOf(rest, ' ');
               && ParseUnsigned(rest[..j], 10, 65536) == Some(st.code) && 100 <= st.code < 1000
               && st.version == line[..k] && st.reason == (if j == |rest| then "" else rest[j + 1..])
  {
    hide ParseUnsigned, IndexOf;
  }

  lemma CodeParted(rest: string, j: nat)
    requires j <= |rest| && (j < |rest| ==> rest[j] == ' ')
    ensures rest == rest[..j] + rest[j..] && (j < |rest| ==> rest[j..] == " " + rest[j + 1..])
    ensures j == |rest| ==> rest[j..] == ""
  {
  }

  lemma NoBlank(s: string, k: nat)
    requires k <= |s| && forall j :: 0 <= j < k ==> s[j] != ' '
    ensures ' ' !in s[..k]
  {
  }

  lemma Parted(line: string, k: nat)
    requires k < |line| && line[k] == ' '
    ensures line == line[..k] + " " + line[k + 1..]
  {
  }

  // ----- Header lines -----

  /** The characters of a token (section 5.6.2 of RFC 9110). */
  predicate TokenChar(c: char) {
    'a' <= c <= 'z' || 'A' <= c <= 'Z' || '0' <= c <= '9' || c in "!#$%&'*+-.^_`|~"
  }

  lemma NameCharExact(c: char)
    ensures NameChar(c) <==> TokenChar(c)
  {
    assert forall d :: d in "()<>@,;:\\\"/[]?={}" <==>
                       d == '(' || d == ')' || d == '<' || d == '>' || d == '@' || d == ',' || d == ';' || d == ':'
                       || d == '\\' || d == '"' || d == '/' || d == '[' || d == ']' || d == '?' || d == '='
                       || d == '{' || d == '}';
    assert forall d :: d in "!#$%&'*+-.^_`|~" <==>
                       d == '!' || d == '#' || d == '$' || d == '%' || d == '&' || d == '\'' || d == '*' || d == '+'
                       || d == '-' || d == '.' || d == '^' || d == '_' || d == '`' || d == '|' || d == '~';
  }

  predicate HeaderOn(line: string, name: string, raw: string) {
    && line == name + ":" + raw && name != "" && (forall k :: 0 <= k < |name| ==> TokenChar(name[k]))
    && '\r' !in raw && '\n' !in raw && '\0' !in raw
  }

  /** A line that begins with a blank continues the header before; any other is one more header, of
      at most 256. */
  lemma HeaderExact(line: string, headers: seq<Header>)
    requires |headers| <= 256
    ensures line != "" && line[0] in {' ', '\t'} ==>
              TakeLine(line, headers)
              == if headers == [] then None
                 else Some(headers[..|headers| - 1]
                           + [Header(headers[|headers| - 1].name, headers[|headers| - 1].value + " " + Trim(line))])
    ensures line == "" || line[0] !in {' ', '\t'} ==>
              (TakeLine(line, headers).Some? <==> |headers| < 256 && exists name, raw :: HeaderOn(line, name, raw))
    ensures line == "" || line[0] !in {' ', '\t'} ==>
              forall name, raw :: HeaderOn(line, name, raw) && |headers| < 256 ==>
                TakeLine(line, headers) == Some(headers + [Header(name, Trim(raw))])
  {
    hide NameChar, TokenChar, Trim, IndexOf;
    if line == "" || line[0] !in {' ', '\t'} {
      forall name, raw | HeaderOn(line, name, raw)
        ensures IndexOf(line, ':') == |name| && line[..|name|] == name && line[|name| + 1..] == raw
        ensures ValidHeader(name, raw)
      {
        HeaderParts(line, name, raw);
      }
      var k := IndexOf(line, ':');
      if k < |line| && ValidHeader(line[..k], line[k + 1..]) {
        forall j | 0 <= j < k ensures TokenChar(line[..k][j]) {
          NameCharExact(line[j]);
        }
        assert line == line[..k] + ":" + line[k + 1..];
        assert HeaderOn(line, line[..k], line[k + 1..]);
      }
    }
  }

  lemma HeaderParts(line: string, name: string, raw: string)
    requires HeaderOn(line, name, raw)
    ensures IndexOf(line, ':') == |name| && line[..|name|] == name && line[|name| + 1..] == raw
    ensures ValidHeader(name, raw)
  {
    hide NameChar, IndexOf;
    forall j | 0 <= j < |name| ensures line[j] != ':' && NameChar(name[j]) {
      assert line[j] == name[j] && TokenChar(name[j]);
      NameCharExact(name[j]);
      ColonIsNoToken();
    }
    IndexUnique(line, ':', |name|);
  }

  lemma ColonIsNoToken()
    ensures !TokenChar(':')
  {
    NameCharExact(':');
    assert ':' == "()<>@,;:\\\"/[]?={}"[7];
  }

  // ----- Chunk sizes -----

  /** A size line: hexadecimal figures with white space around them, and perhaps an extension. */
  lemma SizeSound(line: string, n: nat)
    ensures SizeOf(line) == Some(n) <==>
            Figures(Trim(line[..IndexOf(line, ';')]), 16, n) && n < 0x1_0000_0000_0000_0000
  {
    UnsignedSound(Trim(line[..IndexOf(line, ';')]), 16, TWO_TO_THE_64);
  }

  /** Behind the data of a chunk there is a line break and nothing else before the next size line. */
  lemma NextSizeSound(first: bool, s: seq<byte>)
    requires NextSize(first, s).result.Ok?
    ensures var line := if first then ReadLine(s) else ReadLine(ReadLine(s).rest);
            && (!first ==> ReadLine(s).result == Ok(""))
            && line.result.Ok? && NextSize(first, s).rest == line.rest
            && Figures(Trim(line.result.value[..IndexOf(line.result.value, ';')]), 16, NextSize(first, s).result.value)
  {
    hide ReadLine, Figures, Trim;
    var line := if first then ReadLine(s) else ReadLine(ReadLine(s).rest);
    SizeSound(line.result.value, NextSize(first, s).result.value);
  }
}
