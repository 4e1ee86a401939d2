/**
 The framing that section 6.3 of RFC 9112 asks for, which reads the header lines of one name as
 one list (section 5.3 of RFC 9110), and how far `framing` of
 crates/wasix-net/src/http/wire.rs agrees with it.
 */
module HttpFraming {
  import opened Bytes
  import opened Text
  import opened HttpBody
  import opened HttpHead

  const ENCODING := "transfer-encoding"
  const LENGTH := "content-length"

  // ----- The standard -----

  /** The values of all header lines of one name. */
  function Lines(headers: seq<Header>, name: string): seq<string> {
    if headers == [] then []
    else (if SameName(headers[0].name, name) then [headers[0].value] else []) + Lines(headers[1..], name)
  }

  /** Several lines are one value, their values joined by commas. */
  function Combined(lines: seq<string>): string
    requires lines != []
  {
    if |lines| == 1 then lines[0] else lines[0] + ", " + Combined(lines[1..])
  }

  /** The last element of a list that is not empty; empty elements do not count. */
  function FinalElement(value: string): string
    decreases |value|
  {
    var last := Trim(LastElement(value));
    if last != "" then last
    else
      match LastIndexOf(value, ',')
      case None => ""
      case Some(k) => FinalElement(value[..k])
  }

  predicate ChunkedLast(coding: string) {
    SameName(coding, "chunked")
  }

  /** A length as it is written: digits only. */
  function WrittenLength(element: string): Option<nat> {
    var s := Trim(element);
    match if s == "" then None else Digits(s, 10)
    case None => None
    case Some(n) => if n < TWO_TO_THE_64 then Some(n) else None
  }

  /** All announced lengths must be the same one. */
  function ByLength(lengths: seq<string>): Result<Framing, IoError>
    requires lengths != []
  {
    match WrittenLength(lengths[0])
    case None => Err(InvalidData)
    case Some(n) =>
      if forall k :: 0 <= k < |lengths| ==> WrittenLength(lengths[k]) == Some(n) then Ok(Sized(n)) else Err(InvalidData)
  }

  /** Section 6.3, for a response that is not one to CONNECT. */
  function Standard(head: Head, method_: string): Result<Framing, IoError> {
    var codings, lengths := Lines(head.headers, ENCODING), Elements(head.headers, LENGTH);
    if NoBody(head.status, method_) then Ok(Empty)
    else if codings != [] then Ok(if ChunkedLast(FinalElement(Combined(codings))) then Chunked else ToEof)
    else if lengths == [] then Ok(ToEof)
    else ByLength(lengths)
  }

  // ----- One list over several lines -----

  /** The same element, line by line from the last. */
  function FinalOfLines(lines: seq<string>): string {
    if lines == [] then ""
    else
      var later := FinalOfLines(lines[1..]);
      if later != "" then later else FinalElement(lines[0])
  }

  lemma LoneElement(value: string)
    requires ',' !in value
    ensures FinalElement(value) == Trim(value)
  {
    hide Trim;
    assert LastIndexOf(value, ',') == None;
  }

  lemma ElementBehind(front: string, element: string)
    requires ',' !in element
    ensures FinalElement(front + "," + element)
            == if Trim(element) != "" then Trim(element) else FinalElement(front)
  {
    hide Trim;
    var value, k := front + "," + element, |front|;
    assert value[k] == ',';
    assert forall j :: k < j < |value| ==> value[j] == element[j - k - 1];
    LastIndexUnique(value, ',', k);
    assert value[k + 1..] == element && value[..k] == front;
  }

  /** The last element of two lists in a row is the second's, or else the first's. */
  lemma {:induction false} FinalAppend(a: string, b: string)
    ensures FinalElement(a + "," + b) == if FinalElement(b) != "" then FinalElement(b) else FinalElement(a)
    decreases |b|
  {
    hide Trim, FinalElement;
    var s := a + "," + b;
    match LastIndexOf(b, ',')
    case None =>
      ElementBehind(a, b);
      LoneElement(b);
    case Some(k) =>
      var front, element := b[..k], b[k + 1..];
      assert b == front + "," + element;
      ElementBehind(front, element);
      assert s == (a + "," + front) + "," + element;
      ElementBehind(a + "," + front, element);
      FinalAppend(a, front);
  }

  lemma TrimBlank(s: string)
    ensures Trim(" " + s) == Trim(s)
  {
    TrimStartPadded(" ", s);
  }

  lemma {:induction false} FinalBlank(value: string)
    ensures FinalElement(" " + value) == FinalElement(value)
    decreases |value|
  {
    hide Trim, FinalElement;
    var s := " " + value;
    match LastIndexOf(value, ',')
    case None =>
      assert ',' !in s;
      LoneElement(value);
      LoneElement(s);
      TrimBlank(value);
    case Some(k) =>
      var front, element := value[..k], value[k + 1..];
      assert value == front + "," + element;
      ElementBehind(front, element);
      assert s == (" " + front) + "," + element;
      ElementBehind(" " + front, element);
      FinalBlank(front);
  }

  lemma {:induction false} CombinedFinal(lines: seq<string>)
    requires lines != []
    ensures FinalElement(Combined(lines)) == FinalOfLines(lines)
    decreases |lines|
  {
    hide FinalElement;
    if |lines| == 1 {
      assert FinalOfLines(lines[1..]) == "";
    } else {
      var rest := Combined(lines[1..]);
      CombinedFinal(lines[1..]);
      FinalBlank(rest);
      FinalAppend(lines[0], " " + rest);
      assert lines[0] + ", " + rest == lines[0] + "," + (" " + rest);
    }
  }

  // ----- When the two agree -----

  lemma {:induction false} LookupIsFirst(headers: seq<Header>, name: string)
    ensures Lookup(headers, name) == if Lines(headers, name) == [] then None else Some(Lines(headers, name)[0])
  {
    if headers != [] {
      LookupIsFirst(headers[1..], name);
    }
  }

  lemma {:induction false} PlusIsNoDigit(s: string)
    requires s != "" && s[0] == '+'
    ensures Digits(s, 10) == None
  {
    if |s| == 1 {
      assert Digit(s[|s| - 1], 10) == None;
    } else {
      PlusIsNoDigit(s[..|s| - 1]);
    }
  }

  /** A length without a sign means the same to both; the code also takes one with a plus. */
  lemma LengthsAgree(element: string)
    ensures Signed(element) ==> WrittenLength(element) == None
    ensures !Signed(element) ==> LengthOf(element) == WrittenLength(element)
  {
    hide Trim;
    if Signed(element) {
      PlusIsNoDigit(Trim(element));
    }
  }

  predicate Signed(element: string) {
    Trim(element) != "" && Trim(element)[0] == '+'
  }

  /** What can set the two apart: the last coding of the first line against that of all lines;
      and a plus in front of a length that all lengths agree on. */
  predicate Agree(head: Head, method_: string) {
    var codings, lengths := Lines(head.headers, ENCODING), Elements(head.headers, LENGTH);
    if NoBody(head.status, method_) then true
    else if codings != [] then
      ChunkedLast(Trim(LastElement(codings[0]))) <==> ChunkedLast(FinalOfLines(codings))
    else
      FramingOf(head, method_).Err? || forall k :: 0 <= k < |lengths| ==> !Signed(lengths[k])
  }

  lemma FramingExact(head: Head, method_: string)
    ensures FramingOf(head, method_) == Standard(head, method_) <==> Agree(head, method_)
  {
    hide ChunkedLast, SameName, Elements, FinalElement, FinalOfLines, Combined, Lookup, Lines, Bodiless, NoBody,
         LengthOf, WrittenLength;
    BodilessExact(head.status, method_);
    var codings, lengths := Lines(head.headers, ENCODING), Elements(head.headers, LENGTH);
    LookupIsFirst(head.headers, ENCODING);
    if !Bodiless(head.status, method_) {
      if codings != [] {
        CombinedFinal(codings);
        assert SameName(Trim(LastElement(codings[0])), "chunked") == ChunkedLast(Trim(LastElement(codings[0]))) by {
          ChunkedIs(Trim(LastElement(codings[0])));
        }
      } else if lengths != [] {
        LengthsExact(head, method_, lengths);
      }
    }
  }

  lemma ChunkedIs(coding: string)
    ensures ChunkedLast(coding) == SameName(coding, "chunked")
  {
  }

  lemma LengthsExact(head: Head, method_: string, lengths: seq<string>)
    requires !Bodiless(head.status, method_) && Lookup(head.headers, ENCODING).None?
    requires lengths == Elements(head.headers, LENGTH) != []
    ensures FramingOf(head, method_) == ByLength(lengths) <==>
            FramingOf(head, method_).Err? || forall k :: 0 <= k < |lengths| ==> !Signed(lengths[k])
  {
    hide Bodiless, Elements, LengthOf, WrittenLength, Trim, Lookup;
    forall k | 0 <= k < |lengths|
      ensures LengthOf(lengths[k]) == WrittenLength(lengths[k]) || WrittenLength(lengths[k]).None?
      ensures !Signed(lengths[k]) ==> LengthOf(lengths[k]) == WrittenLength(lengths[k])
      ensures Signed(lengths[k]) ==> WrittenLength(lengths[k]).None?
    {
      LengthsAgree(lengths[k]);
    }
  }

  // ----- One line, and several -----

  /** One line of codings that does not end in a comma is always understood. */
  lemma OneLineAgrees(head: Head, method_: string, value: string)
    requires Lines(head.headers, ENCODING) == [value] && Trim(LastElement(value)) != ""
    ensures FramingOf(head, method_) == Standard(head, method_)
  {
    hide Trim, LastElement, FramingOf, Standard, Lines;
    LastLineDecides([value]);
    FramingExact(head, method_);
  }

  lemma {:induction false} LastLineDecides(lines: seq<string>)
    requires lines != [] && Trim(LastElement(lines[|lines| - 1])) != ""
    ensures FinalOfLines(lines) == Trim(LastElement(lines[|lines| - 1]))
  {
    hide Trim, LastElement;
    if |lines| > 1 {
      LastLineDecides(lines[1..]);
    }
  }

  /** Of several lines, the last of which does not end in a comma, the first and the last must
      both end in chunked, or neither. */
  lemma SeveralLinesAgree(head: Head, method_: string)
    requires !NoBody(head.status, method_) && Lines(head.headers, ENCODING) != []
    requires var lines := Lines(head.headers, ENCODING); Trim(LastElement(lines[|lines| - 1])) != ""
    ensures var lines := Lines(head.headers, ENCODING);
            FramingOf(head, method_) == Standard(head, method_) <==>
            (ChunkedLast(Trim(LastElement(lines[0]))) <==> ChunkedLast(Trim(LastElement(lines[|lines| - 1]))))
  {
    hide Trim, LastElement, FramingOf, Standard, Lines, ChunkedLast;
    LastLineDecides(Lines(head.headers, ENCODING));
    FramingExact(head, method_);
  }

  // ----- Where they differ -----

  function Response(headers: seq<Header>): Head {
    Head(200, "OK", headers, false)
  }

  lemma PlainCoding(coding: string)
    requires ',' !in coding && Trimmed(coding)
    ensures Trim(LastElement(coding)) == coding && FinalElement(coding) == coding
  {
    hide Trim, Trimmed, FinalElement;
    assert LastIndexOf(coding, ',') == None;
    TrimPadded("", coding, "");
    assert "" + coding + "" == coding;
    LoneElement(coding);
  }

  lemma NamesDiffer()
    ensures SameName("Transfer-Encoding", ENCODING) && !SameName("Content-Length", ENCODING)
    ensures SameName("Content-Length", LENGTH)
    ensures ChunkedLast("chunked") && !ChunkedLast("gzip") && !ChunkedLast("")
    ensures !Bodiless(200, "GET") && !NoBody(200, "GET")
  {
    assert |Lower("gzip")| == 4 && |Lower("chunked")| == 7 && |Lower("")| == 0;
    assert |Lower("Content-Length")| == 14 && |Lower(ENCODING)| == 17;
    assert |Lower("GET")| == 3 && |Lower("HEAD")| == 4;
  }

  /** What both make of a response in which lines of codings are all there is. */
  lemma CodingsDecide(head: Head, lines: seq<string>)
    requires head.status == 200 && Lines(head.headers, ENCODING) == lines != []
    ensures FramingOf(head, "GET") == Ok(if ChunkedLast(Trim(LastElement(lines[0]))) then Chunked else ToEof)
    ensures Standard(head, "GET") == Ok(if ChunkedLast(FinalOfLines(lines)) then Chunked else ToEof)
  {
    hide Trim, LastElement, FinalElement, FinalOfLines, Combined, Lines, Lookup, SameName, Bodiless;
    NamesDiffer();
    LookupIsFirst(head.headers, ENCODING);
    CombinedFinal(lines);
  }

  lemma LinesOf(values: seq<string>)
    requires 1 <= |values| <= 2
    ensures var one, two := Header("Transfer-Encoding", values[0]), Header("Transfer-Encoding", values[|values| - 1]);
            Lines(if |values| == 1 then [one] else [one, two], ENCODING) == values
  {
    hide SameName;
    NamesDiffer();
    var one, two := Header("Transfer-Encoding", values[0]), Header("Transfer-Encoding", values[|values| - 1]);
    assert [one][1..] == [] && [one, two][1..] == [two] && [two][1..] == [];
    assert Lines([], ENCODING) == [];
    assert Lines([two], ENCODING) == [two.value] + [];
  }

  const TWO_LINES := Response([Header("Transfer-Encoding", "gzip"), Header("Transfer-Encoding", "chunked")])

  const COMMA_BEHIND := Response([Header("Transfer-Encoding", "chunked,")])

  const PLUS_FIVE := Response([Header("Content-Length", "+5")])

  /** Two lines, `gzip` and `chunked`: read as one list, the last coding is chunked; the code
      reads on to the end of the connection. */
  lemma SecondLineUnseen()
    ensures FramingOf(TWO_LINES, "GET") == Ok(ToEof) && Standard(TWO_LINES, "GET") == Ok(Chunked)
  {
    hide Trim, LastElement, FramingOf, Standard, ChunkedLast, SameName, FinalElement, Lines;
    NamesDiffer();
    LinesOf(["gzip", "chunked"]);
    PlainCoding("gzip");
    PlainCoding("chunked");
    LastLineDecides(["gzip", "chunked"]);
    CodingsDecide(TWO_LINES, ["gzip", "chunked"]);
  }

  /** One line, `chunked` and a comma: the empty element behind it does not count, but the code
      takes it for the last coding. */
  lemma CommaUnseen()
    ensures FramingOf(COMMA_BEHIND, "GET") == Ok(ToEof) && Standard(COMMA_BEHIND, "GET") == Ok(Chunked)
  {
    hide Trim, LastElement, FramingOf, Standard, ChunkedLast, SameName, FinalElement, Lines;
    NamesDiffer();
    LinesOf(["chunked,"]);
    CommaBehind();
    CodingsDecide(COMMA_BEHIND, ["chunked,"]);
    assert ["chunked,"][1..] == [];
  }

  lemma CommaBehind()
    ensures Trim(LastElement("chunked,")) == "" && FinalElement("chunked,") == "chunked"
  {
    hide FinalElement, Trim;
    LastIndexUnique("chunked,", ',', 7);
    assert "chunked,"[..7] == "chunked" && "chunked,"[8..] == "";
    assert Trim("") == "" by { NothingTrimmed(); }
    assert "chunked," == "chunked" + "," + "";
    ElementBehind("chunked", "");
    PlainCoding("chunked");
  }

  lemma NothingTrimmed()
    ensures Trim("") == ""
  {
  }

  /** A length with a plus in front, which no length has, is taken as if it were not there. */
  lemma PlusTaken()
    ensures FramingOf(PLUS_FIVE, "GET") == Ok(Sized(5)) && Standard(PLUS_FIVE, "GET") == Err(InvalidData)
  {
    hide Trim, SameName, Bodiless, LengthOf, WrittenLength, Split;
    NamesDiffer();
    var h := Header("Content-Length", "+5");
    assert [h][1..] == [];
    PlusElement();
    assert Elements([h], LENGTH) == ["+5"] + [] == ["+5"];
    assert Lookup([h], ENCODING) == None;
  }

  lemma PlusElement()
    ensures Split("+5", ',') == ["+5"] && LengthOf("+5") == Some(5) && WrittenLength("+5") == None
  {
    hide Split;
    IndexUnique("+5", ',', 2);
    assert Split("+5", ',') == ["+5"] by { NoSplit("+5", ','); }
    TrimPadded("", "+5", "");
    assert "" + "+5" + "" == "+5";
    PlusIsNoDigit("+5");
    assert "+5"[1..] == "5" && "5"[..0] == "";
    assert Digit('5', 10) == Some(5);
    assert Digits("5", 10) == Some(5);
  }

  /** So is a chunk size with a plus in front. */
  lemma PlusSizeTaken()
    ensures SizeOf("+5") == Some(5) && Digits("+5", 16) == None
  {
    IndexUnique("+5", ';', 2);
    assert "+5"[..2] == "+5";
    TrimPadded("", "+5", "");
    assert "" + "+5" + "" == "+5";
    assert "+5"[1..] == "5" && "5"[..0] == "" && "+5"[..1] == "+";
    assert Digit('5', 16) == Some(5) && Digit('+', 16) == None;
    assert Digits("5", 16) == Some(5) && Digits("+", 16) == None;
  }

  lemma NoSplit(s: string, c: char)
    requires IndexOf(s, c) == |s|
    ensures Split(s, c) == [s]
  {
  }
}
