/**
 When a connection is kept for another request: `keep_alive` of crates/wasix-net/src/http/wire.rs
 by the words on the Connection lines, and section 9.3 of RFC 9112.
 */
module HttpReuse {
  import opened Bytes
  import opened Text
  import opened HttpBody
  import opened HttpHead

  // ----- Words between commas -----

  /** A word of a comma-separated value: what stands before it ends in a comma, what stands behind
      it begins with one, and there is white space around it. */
  predicate WordAt(value: string, front: string, pad: string, word: string, end: string, back: string) {
    && value == front + (pad + (word + (end + back)))
    && (front != "" ==> front[|front| - 1] == ',') && (back != "" ==> back[0] == ',')
    && AllWhite(pad) && AllWhite(end)
  }

  /** The value holds the word, in any case. */
  ghost predicate Holds(value: string, word: string) {
    exists front, pad, w, end, back :: WordAt(value, front, pad, w, end, back) && SameLetters(w, word)
  }

  /** Some Connection line holds the word. */
  ghost predicate Connection(headers: seq<Header>, word: string) {
    exists k :: 0 <= k < |headers| && SameLetters(headers[k].name, "connection") && Holds(headers[k].value, word)
  }

  /** A connection of version 1.0 is kept if that is asked for, any other unless it is closed. */
  ghost predicate Persists(head: Head) {
    if head.http10 then Connection(head.headers, "keep-alive") else !Connection(head.headers, "close")
  }

  // ----- The code finds those words -----

  /** Words that stand for themselves once trimmed. */
  predicate PlainWord(word: string) {
    word != "" && forall k :: 0 <= k < |word| ==> word[k] != ',' && !White(word[k]) && word[k] as int < 128
  }

  ghost predicate HasElement(elements: seq<string>, word: string) {
    exists k :: 0 <= k < |elements| && SameName(Trim(elements[k]), word)
  }

  lemma SplitFirst(value: string)
    ensures var k := IndexOf(value, ',');
            k < |value| ==> Split(value, ',') == [value[..k]] + Split(value[k + 1..], ',')
    ensures IndexOf(value, ',') == |value| ==> Split(value, ',') == [value]
  {
    hide IndexOf;
  }

  lemma TrimmedLetters(w: string, word: string)
    requires SameLetters(w, word) && PlainWord(word)
    ensures PlainWord(w) && Trimmed(w)
  {
    forall k | 0 <= k < |w| ensures w[k] != ',' && !White(w[k]) && w[k] as int < 128 {
      assert w[k] == word[k] || Capital(w[k], word[k]) || Capital(word[k], w[k]);
    }
  }

  /** The first element is the word exactly if it is the word with white space around it. */
  lemma ElementIsWord(element: string, word: string)
    requires PlainWord(word)
    ensures SameName(Trim(element), word) <==>
            exists pad, w, end :: element == pad + (w + end) && AllWhite(pad) && AllWhite(end) && SameLetters(w, word)
  {
    hide SameLetters, SameName, PlainWord, Trim, Trimmed, White;
    SameNameExact(Trim(element), word);
    if SameName(Trim(element), word) {
      var pad, end := TrimParts(element);
      assert element == pad + (Trim(element) + end);
    }
    if pad, w, end :| element == pad + (w + end) && AllWhite(pad) && AllWhite(end) && SameLetters(w, word) {
      TrimmedLetters(w, word);
      TrimPadded(pad, w, end);
      assert pad + w + end == element;
    }
  }

  lemma {:induction false} TrimStartParts(s: string) returns (pad: string)
    ensures s == pad + TrimStart(s) && AllWhite(pad)
  {
    if s != "" && White(s[0]) {
      pad := TrimStartParts(s[1..]);
      pad := [s[0]] + pad;
    } else {
      pad := "";
    }
  }

  lemma {:induction false} TrimEndParts(s: string) returns (end: string)
    ensures s == TrimEnd(s) + end && AllWhite(end)
  {
    if s != "" && White(s[|s| - 1]) {
      end := TrimEndParts(s[..|s| - 1]);
      end := end + [s[|s| - 1]];
    } else {
      end := "";
    }
  }

  lemma TrimParts(s: string) returns (pad: string, end: string)
    ensures s == pad + (Trim(s) + end) && AllWhite(pad) && AllWhite(end)
  {
    pad := TrimStartParts(s);
    end := TrimEndParts(TrimStart(s));
  }

  /** A word in front of the first comma. */
  lemma WordInFront(value: string, word: string)
    requires PlainWord(word)
    ensures SameName(Trim(value[..IndexOf(value, ',')]), word) ==> Holds(value, word)
  {
    hide SameName, Trim, White, PlainWord, SameLetters, AllWhite;
    var k := IndexOf(value, ',');
    ElementIsWord(value[..k], word);
    if SameName(Trim(value[..k]), word) {
      var pad, w, end :| value[..k] == pad + (w + end) && AllWhite(pad) && AllWhite(end) && SameLetters(w, word);
      assert value == "" + (pad + (w + (end + value[k..])));
      assert WordAt(value, "", pad, w, end, value[k..]);
    }
  }

  /** A word behind the first comma. */
  lemma WordBehind(value: string, word: string)
    requires IndexOf(value, ',') < |value|
    ensures Holds(value[IndexOf(value, ',') + 1..], word) ==> Holds(value, word)
  {
    hide SameLetters, AllWhite, IndexOf, WordAt;
    var k := IndexOf(value, ',');
    var rest := value[k + 1..];
    if Holds(rest, word) {
      var front, pad, w, end, back :| WordAt(rest, front, pad, w, end, back) && SameLetters(w, word);
      assert value == value[..k + 1] + rest;
      WordFurther(value[..k + 1], rest, front, pad, w, end, back);
    }
  }

  lemma WordFurther(first: string, rest: string, front: string, pad: string, w: string, end: string, back: string)
    requires first != "" && first[|first| - 1] == ',' && WordAt(rest, front, pad, w, end, back)
    ensures WordAt(first + rest, first + front, pad, w, end, back)
  {
    hide AllWhite;
    var tail := pad + (w + (end + back));
    assert first + (front + tail) == (first + front) + tail;
  }

  lemma NoCommaIn(pad: string, w: string, end: string, word: string)
    requires AllWhite(pad) && AllWhite(end) && SameLetters(w, word) && PlainWord(word)
    ensures ',' !in pad + (w + end)
  {
    TrimmedLetters(w, word);
    NoComma(pad);
    NoComma(end);
    assert ',' !in w;
  }

  /** A word is in front of the first comma or behind it. */
  lemma WordSomewhere(value: string, word: string)
    requires PlainWord(word) && Holds(value, word)
    ensures var k := IndexOf(value, ',');
            SameName(Trim(value[..k]), word) || (k < |value| && Holds(value[k + 1..], word))
  {
    hide SameName, Trim, White, PlainWord, SameLetters, AllWhite, WordAt, IndexOf;
    var front, pad, w, end, back :| WordAt(value, front, pad, w, end, back) && SameLetters(w, word);
    if front == "" {
      WordFirst(value, pad, w, end, back, word);
      ElementIsWord(value[..IndexOf(value, ',')], word);
    } else {
      WordLater(value, front, pad, w, end, back);
    }
  }

  lemma WordFirst(value: string, pad: string, w: string, end: string, back: string, word: string)
    requires PlainWord(word) && WordAt(value, "", pad, w, end, back) && SameLetters(w, word)
    ensures value[..IndexOf(value, ',')] == pad + (w + end) && AllWhite(pad) && AllWhite(end)
  {
    hide White, PlainWord, SameLetters, AllWhite, IndexOf;
    var element := pad + (w + end);
    NoCommaIn(pad, w, end, word);
    assert value == element + back;
    IndexUnique(value, ',', |element|);
  }

  lemma WordLater(value: string, front: string, pad: string, w: string, end: string, back: string)
    requires front != "" && WordAt(value, front, pad, w, end, back)
    ensures var k := IndexOf(value, ',');
            k < |front| <= |value| && WordAt(value[k + 1..], front[k + 1..], pad, w, end, back)
  {
    hide White, AllWhite, IndexOf;
    var tail := pad + (w + (end + back));
    assert value == front + tail;
    FirstComma(front, tail);
    BehindIndex(front, tail, IndexOf(value, ','));
  }

  lemma FirstComma(front: string, tail: string)
    requires front != "" && front[|front| - 1] == ','
    ensures IndexOf(front + tail, ',') < |front|
  {
    hide IndexOf;
    assert (front + tail)[|front| - 1] == ',';
  }

  lemma BehindIndex(front: string, tail: string, k: nat)
    requires k < |front|
    ensures (front + tail)[k + 1..] == front[k + 1..] + tail
    ensures front[k + 1..] != "" ==> front[k + 1..][|front[k + 1..]| - 1] == front[|front| - 1]
  {
  }

  lemma {:induction false} ElementsHold(value: string, word: string)
    requires PlainWord(word)
    ensures HasElement(Split(value, ','), word) <==> Holds(value, word)
    decreases |value|
  {
    hide SameName, Trim, Holds, PlainWord, Split;
    var k := IndexOf(value, ',');
    SplitFirst(value);
    WordInFront(value, word);
    if Holds(value, word) {
      WordSomewhere(value, word);
    }
    if k < |value| {
      var rest := value[k + 1..];
      ElementsHold(rest, word);
      WordBehind(value, word);
      var all := [value[..k]] + Split(rest, ',');
      if i :| 0 <= i < |Split(rest, ',')| && SameName(Trim(Split(rest, ',')[i]), word) {
        assert SameName(Trim(all[i + 1]), word);
      }
      assert SameName(Trim(all[0]), word) ==> HasElement(all, word);
      if i :| 0 <= i < |all| && SameName(Trim(all[i]), word) && i > 0 {
        assert all[i] == Split(rest, ',')[i - 1];
      }
    } else {
      assert value[..k] == value;
      assert SameName(Trim([value][0]), word) ==> HasElement([value], word);
    }
  }

  /** The elements of all lines of a name. */
  lemma {:induction false} LinesHold(headers: seq<Header>, word: string)
    requires PlainWord(word)
    ensures HasElement(Elements(headers, "connection"), word) <==> Connection(headers, word)
  {
    hide SameName, SameLetters, Trim, Holds, PlainWord, Split;
    if headers != [] {
      var h, rest := headers[0], headers[1..];
      SameNameExact(h.name, "connection");
      ElementsHold(h.value, word);
      LinesHold(rest, word);
      var own := if SameName(h.name, "connection") then Split(h.value, ',') else [];
      HasEither(own, Elements(rest, "connection"), word);
      if k :| 0 <= k < |rest| && SameLetters(rest[k].name, "connection") && Holds(rest[k].value, word) {
        assert SameLetters(headers[k + 1].name, "connection") && Holds(headers[k + 1].value, word);
      }
      if k :| 0 <= k < |headers| && SameLetters(headers[k].name, "connection") && Holds(headers[k].value, word) && k > 0 {
        assert headers[k] == rest[k - 1];
      }
    }
  }

  lemma HasEither(a: seq<string>, b: seq<string>, word: string)
    ensures HasElement(a + b, word) <==> HasElement(a, word) || HasElement(b, word)
  {
    hide SameName, Trim;
    if i :| 0 <= i < |a| && SameName(Trim(a[i]), word) {
      assert SameName(Trim((a + b)[i]), word);
    }
    if i :| 0 <= i < |b| && SameName(Trim(b[i]), word) {
      assert SameName(Trim((a + b)[|a| + i]), word);
    }
    if i :| 0 <= i < |a + b| && SameName(Trim((a + b)[i]), word) {
      assert (a + b)[i] == if i < |a| then a[i] else b[i - |a|];
    }
  }

  lemma WordsArePlain()
    ensures PlainWord("close") && PlainWord("keep-alive")
  {
  }

  lemma KeepAliveExact(head: Head)
    ensures KeepAlive(head) <==> Persists(head)
  {
    hide SameName, Trim, Connection, Elements, PlainWord;
    WordsArePlain();
    LinesHold(head.headers, "close");
    LinesHold(head.headers, "keep-alive");
  }

  // ----- The standard -----

  /** Section 9.3 of RFC 9112: `close` decides first, then the version, then `keep-alive`. */
  ghost predicate StandardPersists(head: Head) {
    if Connection(head.headers, "close") then false
    else if !head.http10 then true
    else Connection(head.headers, "keep-alive")
  }

  /** The code agrees unless a response of version 1.0 asks for both. */
  lemma KeepAliveAgrees(head: Head)
    ensures KeepAlive(head) == StandardPersists(head) <==>
            !(head.http10 && Connection(head.headers, "close") && Connection(head.headers, "keep-alive"))
  {
    hide Connection;
    KeepAliveExact(head);
  }
}
