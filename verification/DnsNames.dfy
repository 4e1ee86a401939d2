/**
 Domain names in packages/wasi-dig/src/present.rs: from the wire to text, with the escapes of
 section 5.1 of RFC 1035.
 */
module DnsNames {
  import opened Bytes

  type Label = seq<byte>

  // ----- Labels -----

  /** The characters that get a backslash: " ( ) . ; \ @ $ */
  predicate Quoted(c: byte) {
    c == 34 || c == 40 || c == 41 || c == 46 || c == 59 || c == 92 || c == 64 || c == 36
  }

  function DigitChar(d: nat): char
    requires d < 10
  {
    ('0' as int + d) as char
  }

  function ByteText(c: byte): (r: string)
    ensures r != ""
  {
    if Quoted(c) then ['\\', c as char]
    else if 0x21 <= c <= 0x7E then [c as char]
    else ['\\', DigitChar(c / 100), DigitChar(c / 10 % 10), DigitChar(c % 10)]
  }

  function LabelText(part: Label): string {
    if part == [] then "" else ByteText(part[0]) + LabelText(part[1..])
  }

  /** `label_text`. */
  method AppendLabel(part: Label, text: string) returns (out: string)
    ensures out == text + LabelText(part)
  {
    out := text;
    var i := 0;
    ghost var rest := part;
    assert text + LabelText(part) == out + LabelText(rest);
    while i < |part|
      invariant 0 <= i <= |part| && rest == part[i..]
      invariant text + LabelText(part) == out + LabelText(rest)
    {
      assert out + (ByteText(rest[0]) + LabelText(rest[1..])) == out + ByteText(rest[0]) + LabelText(rest[1..]);
      out := out + ByteText(part[i]);
      rest := rest[1..];
      i := i + 1;
    }
  }

  // ----- Names on the wire -----

  /** The labels of an uncompressed name and the number of bytes it takes. */
  function Labels(rd: seq<byte>): (r: Option<(seq<Label>, nat)>)
    ensures r.Some? ==> r.value.1 <= |rd|
    decreases |rd|
  {
    if rd == [] then None
    else
      var len := rd[0];
      if len == 0 then Some(([], 1))
      else if len > 63 || |rd| < 1 + len then None
      else
        match Labels(rd[1 + len..])
        case None => None
        case Some((more, n)) => Some(([rd[1..1 + len]] + more, 1 + len + n))
  }

  function NameText(labels: seq<Label>): string {
    if labels == [] then "" else LabelText(labels[0]) + "." + NameText(labels[1..])
  }

  /** The text of a whole name; the root is a lone dot. */
  function FullText(labels: seq<Label>): string {
    if labels == [] then "." else NameText(labels)
  }

  /** `wire_name`: the text, and where the name ends. */
  method WireName(rd: seq<byte>, from: nat) returns (r: Option<(string, nat)>)
    requires from <= |rd|
    ensures r.None? <==> Labels(rd[from..]).None?
    ensures r.Some? ==>
              r.value == (FullText(Labels(rd[from..]).value.0), from + Labels(rd[from..]).value.1)
  {
    hide LabelText, FullText, Labels, Onward, NameText;
    var at, out := from, "";
    ghost var done: seq<Label>, rest := [], rd[from..];
    StartName(rest);
    NameEnd(done);
    while true
      invariant from <= at <= |rd| && rest == rd[at..] && out == NameText(done)
      invariant Labels(rd[from..]) == Onward(done, at - from, Labels(rest))
      decreases |rd| - at
    {
      LabelsEnd(done, at - from, rest);
      if |rd| <= at {
        return None;
      }
      var len := rd[at] as int;
      assert rest[0] == len;
      at := at + 1;
      if len == 0 {
        break;
      }
      if len > 63 || |rd| < at + len {
        return None;
      }
      LabelStep(done, at - 1 - from, rest, len);
      NameMore(done, rd[at..at + len]);
      assert rest[1..1 + len] == rd[at..at + len] && rest[1 + len..] == rd[at + len..];
      out := AppendLabel(rd[at..at + len], out);
      out := out + ".";
      done := done + [rd[at..at + len]];
      rest := rest[1 + len..];
      at := at + len;
    }
    NameEnd(done);
    if out == "" {
      out := ".";
    }
    return Some((out, at));
  }

  /** Where the loop stops. */
  lemma LabelsEnd(done: seq<Label>, at: nat, rest: seq<byte>)
    ensures rest == [] || rest[0] > 63 || |rest| < 1 + rest[0] ==> Onward(done, at, Labels(rest)) == None
    ensures rest != [] && rest[0] == 0 ==> Onward(done, at, Labels(rest)) == Some((done, at + 1))
  {
    assert done + [] == done;
  }

  function Onward(done: seq<Label>, at: nat, r: Option<(seq<Label>, nat)>): Option<(seq<Label>, nat)> {
    match r
    case None => None
    case Some((more, n)) => Some((done + more, at + n))
  }

  lemma StartName(rest: seq<byte>)
    ensures Onward([], 0, Labels(rest)) == Labels(rest)
  {
    if Labels(rest).Some? {
      assert [] + Labels(rest).value.0 == Labels(rest).value.0;
    }
  }

  lemma LabelStep(done: seq<Label>, at: nat, rest: seq<byte>, len: nat)
    requires rest != [] && rest[0] == len && 0 < len <= 63 && 1 + len <= |rest|
    ensures Onward(done, at, Labels(rest)) == Onward(done + [rest[1..1 + len]], at + 1 + len, Labels(rest[1 + len..]))
  {
    var r, part := Labels(rest[1 + len..]), rest[1..1 + len];
    if r.Some? {
      assert done + ([part] + r.value.0) == done + [part] + r.value.0;
    }
  }

  lemma {:induction false} NameMore(done: seq<Label>, part: Label)
    ensures NameText(done + [part]) == NameText(done) + LabelText(part) + "."
  {
    hide LabelText;
    if done == [] {
      assert [part][1..] == [] && [] + [part] == [part];
      assert LabelText(part) + "." + "" == "" + LabelText(part) + ".";
    } else {
      assert (done + [part])[1..] == done[1..] + [part];
      NameMore(done[1..], part);
      assert LabelText(done[0]) + "." + (NameText(done[1..]) + LabelText(part) + ".")
          == LabelText(done[0]) + "." + NameText(done[1..]) + LabelText(part) + ".";
    }
  }

  lemma NameEnd(labels: seq<Label>)
    ensures NameText(labels) == "" <==> labels == []
    ensures labels == [] ==> NameText(labels) == ""
    ensures FullText(labels) == if NameText(labels) == "" then "." else NameText(labels)
  {
  }

  // ----- Reading names back -----

  predicate IsDigit(c: char) {
    '0' <= c <= '9'
  }

  /** A byte of a label at the front of the text, escapes read as section 5.1 of RFC 1035 says,
      and the number of characters it takes; nothing at an unescaped dot. */
  function Unescape(s: string): (r: Option<(byte, nat)>)
    requires s != ""
    ensures r.Some? ==> 0 < r.value.1 <= |s|
  {
    if s[0] == '.' then None
    else if s[0] != '\\' then if s[0] as int < 256 then Some((s[0] as int, 1)) else None
    else if |s| >= 4 && IsDigit(s[1]) && IsDigit(s[2]) && IsDigit(s[3]) then
      var v := (s[1] as int - 48) * 100 + (s[2] as int - 48) * 10 + (s[3] as int - 48);
      if v < 256 then Some((v, 4)) else None
    else if |s| >= 2 && !IsDigit(s[1]) && s[1] as int < 256 then Some((s[1] as int, 2))
    else None
  }

  /** The labels of a name in text, each ended by an unescaped dot. */
  function ReadLabels(s: string, part: Label): Option<seq<Label>>
    decreases |s|
  {
    if s == "" then (if part == [] then Some([]) else None)
    else if s[0] == '.' then
      match ReadLabels(s[1..], [])
      case None => None
      case Some(more) => Some([part] + more)
    else
      match Unescape(s)
      case None => None
      case Some((c, n)) => ReadLabels(s[n..], part + [c])
  }

  function ReadName(s: string): Option<seq<Label>> {
    if s == "." then Some([]) else ReadLabels(s, [])
  }

  lemma ThreeDigits(c: byte)
    ensures c / 100 * 100 + c / 10 % 10 * 10 + c % 10 == c && c / 100 < 10
  {
  }

  lemma ByteReadsBack(c: byte, rest: string)
    ensures var s := ByteText(c) + rest;
            s[0] != '.' && Unescape(s) == Some((c, |ByteText(c)|)) && s[|ByteText(c)|..] == rest
  {
    ThreeDigits(c);
  }

  lemma {:induction false} LabelReadsBack(part: Label, before: Label, rest: string)
    ensures ReadLabels(LabelText(part) + rest, before) == ReadLabels(rest, before + part)
    decreases |part|
  {
    hide ByteText, Unescape;
    if part == [] {
      assert "" + rest == rest && before + [] == before;
    } else {
      var c, more := part[0], LabelText(part[1..]) + rest;
      assert LabelText(part) + rest == ByteText(c) + more;
      ByteReadsBack(c, more);
      LabelReadsBack(part[1..], before + [c], rest);
      assert before + [c] + part[1..] == before + part;
    }
  }

  lemma {:induction false} NameReadsBack(labels: seq<Label>)
    ensures ReadLabels(NameText(labels), []) == Some(labels)
    decreases |labels|
  {
    hide LabelText, Unescape;
    if labels != [] {
      var rest := "." + NameText(labels[1..]);
      assert NameText(labels) == LabelText(labels[0]) + rest;
      LabelReadsBack(labels[0], [], rest);
      assert rest[1..] == NameText(labels[1..]) && [] + labels[0] == labels[0];
      NameReadsBack(labels[1..]);
      assert [labels[0]] + labels[1..] == labels;
    }
  }

  /** Escaping loses nothing: the printed name reads back as the labels, whatever their bytes. */
  lemma TextReadsBack(labels: seq<Label>)
    requires forall k :: 0 <= k < |labels| ==> labels[k] != []
    ensures ReadName(FullText(labels)) == Some(labels)
  {
    hide ReadLabels, Unescape;
    NameReadsBack(labels);
    if labels != [] {
      var c := labels[0][0];
      var rest := LabelText(labels[0][1..]) + "." + NameText(labels[1..]);
      ByteReadsBack(c, rest);
      assert NameText(labels) == ByteText(c) + rest;
    }
  }

  // ----- From the wire and back -----

  function WireBytes(labels: seq<Label>): seq<byte>
    requires forall k :: 0 <= k < |labels| ==> 0 < |labels[k]| <= 63
  {
    if labels == [] then [0] else [|labels[0]|] + labels[0] + WireBytes(labels[1..])
  }

  /** The labels of a name written on the wire, and its length, whatever follows it. */
  lemma {:induction false} LabelsOfWire(labels: seq<Label>, tail: seq<byte>)
    requires forall k :: 0 <= k < |labels| ==> 0 < |labels[k]| <= 63
    ensures Labels(WireBytes(labels) + tail) == Some((labels, |WireBytes(labels)|))
    decreases |labels|
  {
    if labels != [] {
      var len: byte, rest := |labels[0]|, WireBytes(labels[1..]) + tail;
      assert WireBytes(labels) + tail == [len] + labels[0] + rest;
      LabelsOfWire(labels[1..], tail);
      OneLabel(labels[0], rest);
      assert [labels[0]] + labels[1..] == labels;
    }
  }

  lemma OneLabel(part: Label, rest: seq<byte>)
    requires 0 < |part| <= 63
    ensures var len: byte := |part|;
            Labels([len] + part + rest) == match Labels(rest)
                                           case None => None
                                           case Some((more, n)) => Some(([part] + more, 1 + |part| + n))
  {
    var len: byte := |part|;
    var rd := [len] + part + rest;
    assert rd[1..1 + |part|] == part && rd[1 + |part|..] == rest;
  }

  /** What is read as a name was written as one: labels of 1 to 63 bytes, and the root. */
  lemma {:induction false} LabelsSound(rd: seq<byte>)
    requires Labels(rd).Some?
    ensures var (labels, n) := Labels(rd).value;
            && n <= |rd| && (forall k :: 0 <= k < |labels| ==> 1 <= |labels[k]| <= 63)
            && rd[..n] == WireBytes(labels)
    decreases |rd|
  {
    var len := rd[0];
    if len > 0 {
      var rest := rd[1 + len..];
      LabelsSound(rest);
      var (more, n) := Labels(rest).value;
      var labels := Labels(rd).value.0;
      assert labels[0] == rd[1..1 + len] && labels[1..] == more;
      assert rd[..1 + len + n] == [len] + rd[1..1 + len] + rest[..n];
    }
  }

  /** How a byte is printed: letters, digits, hyphens and all other characters that can be seen as
      themselves, eight of them behind a backslash, and the rest as three decimal digits. */
  lemma BytePrinted(c: byte)
    ensures c as char in "\"().;\\@$" ==> ByteText(c) == ['\\', c as char]
    ensures 33 <= c <= 126 && c as char !in "\"().;\\@$" ==> ByteText(c) == [c as char]
    ensures c < 33 || c > 126 ==>
              |ByteText(c)| == 4 && ByteText(c)[0] == '\\' && forall k :: 1 <= k < 4 ==> '0' <= ByteText(c)[k] <= '9'
  {
    assert forall x: char :: x in "\"().;\\@$" <==>
             x == '"' || x == '(' || x == ')' || x == '.' || x == ';' || x == '\\' || x == '@' || x == '$';
  }
}
