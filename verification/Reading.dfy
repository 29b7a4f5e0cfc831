/**
 What interop/reader.go makes of any bytes, not only of printed messages: which texts it reads, with line feeds or with
 carriage returns before them, with white space and in any letter case, and which error it gives otherwise.
 */
module Reading {
  import opened Bytes
  import opened Headers
  import opened WireCodec
  import opened TornWrites

  // ---------------------------------------------------------------- paragraphs

  lemma {:induction false} ParagraphOf(lines: seq<bytes>, blank: bytes, rest: bytes)
    requires TextLines(lines) && IsBlankLine(blank)
    ensures Paragraph(Concat(lines) + blank + rest) == Got(lines, rest)
  {
    if lines == [] {
      assert Concat(lines) + blank + rest == blank + rest;
      BlankEnds(blank, rest);
    } else {
      var line, more := lines[0], lines[1..];
      assert lines == [line] + more && line in lines;
      ParagraphOf(more, blank, rest);
      ConcatFirst(line, more);
      Regroup(line, Concat(more), blank, rest);
      ParagraphGoesOn(Concat(lines) + blank + rest, line, Concat(more) + blank + rest, more, rest);
    }
  }

  lemma {:induction false} ParagraphSteps(s: bytes, i: nat)
    requires i == IndexOf(s, LF) && !IsBlankLine(s[..i + 1]) && Paragraph(s).Got?
    ensures Paragraph(s[i + 1..]).Got?
    ensures Paragraph(s) == Got([s[..i + 1]] + Paragraph(s[i + 1..]).value, Paragraph(s[i + 1..]).rest)
  {
  }

  /** What a paragraph was cut out of. */
  lemma {:induction false} ParagraphFrom(s: bytes) returns (blank: bytes)
    requires Paragraph(s).Got?
    ensures IsBlankLine(blank) && s == Concat(Paragraph(s).value) + blank + Paragraph(s).rest
    decreases |s|
  {
    var i := IndexOf(s, LF);
    var line, more := s[..i + 1], s[i + 1..];
    assert s == line + more;
    if IsBlankLine(line) {
      blank := line;
      assert [] + blank + more == blank + more;
    } else {
      ParagraphSteps(s, i);
      blank := ParagraphFrom(more);
      var o := Paragraph(more);
      ConcatFirst(line, o.value);
      Regroup(line, Concat(o.value), blank, o.rest);
    }
  }

  // ---------------------------------------------------------------- headers

  /** A header is read whatever white space surrounds its name and its value, and in whatever case its name is. */
  lemma ParseTolerant(h: Header, name: bytes, a: bytes, b: bytes, c: bytes, d: bytes)
    requires Canonical(name) == h.name && COLON !in name && Tight(IsSpace, name) && Tight(IsSpace, h.value)
    requires AllBlank(IsSpace, a) && AllBlank(IsSpace, b) && AllBlank(IsSpace, c) && AllBlank(IsSpace, d)
    ensures ParseHeader(a + name + b + [COLON] + (c + h.value + d)) == Parsed(h)
  {
    var front, back := a + name + b, c + h.value + d;
    assert COLON !in front;
    CutAtFirst(front + [COLON] + back, front, COLON, back);
    TrimPadded(IsSpace, a, name, b);
    TrimPadded(IsSpace, c, h.value, d);
  }

  lemma {:induction false} NoColonNoHeaders(lines: seq<bytes>)
    ensures ParseHeaders(lines).SomeBad? <==> exists line :: line in lines && COLON !in line
  {
    if lines != [] {
      NoColonNoHeaders(lines[1..]);
      if line :| line in lines && COLON !in line {
        assert line == lines[0] || line in lines[1..];
      }
    }
  }

  /** Some lines, a blank one and something behind them. */
  ghost predicate HasBlock(s: bytes) {
    exists lines, blank, rest :: TextLines(lines) && IsBlankLine(blank) && s == Text(lines, blank, rest)
  }

  /** Without a blank line there is no message, and no error but the end of the stream. */
  lemma BlockExactly(s: bytes)
    ensures Paragraph(s).Got? <==> HasBlock(s)
    ensures !HasBlock(s) ==> ReadMessage(s) == Failed(EOF, [])
  {
    if Paragraph(s).Got? {
      ParagraphYields(s);
      var blank := ParagraphFrom(s);
      assert s == Text(Paragraph(s).value, blank, Paragraph(s).rest);
    } else {
      ParagraphError(s);
    }
    if lines, blank, rest :| TextLines(lines) && IsBlankLine(blank) && s == Text(lines, blank, rest) {
      ParagraphOf(lines, blank, rest);
    }
  }

  /** The text of a message: header lines, a blank line, and the rest. */
  function Text(lines: seq<bytes>, blank: bytes, rest: bytes): bytes {
    Concat(lines) + blank + rest
  }

  /** A header block is refused exactly if one of its lines has no colon. */
  lemma BadHeaderExactly(lines: seq<bytes>, blank: bytes, rest: bytes)
    requires TextLines(lines) && IsBlankLine(blank)
    ensures ReadMessage(Text(lines, blank, rest)) == Failed(BadHeader, rest) <==> exists line :: line in lines && COLON !in line
  {
    ParagraphOf(lines, blank, rest);
    NoColonNoHeaders(lines);
    if ParseHeaders(lines).AllParsed? {
      BodyErrors(ParseHeaders(lines).headers, rest);
    }
  }

  lemma BodyErrors(hs: seq<Header>, rest: bytes)
    ensures ReadBody(hs, rest).Failed? ==> ReadBody(hs, rest).error != BadHeader
  {
    if LengthOf(hs) == "" && !Paragraph(rest).Got? {
      ParagraphError(rest);
    }
  }

  lemma {:induction false} ParagraphError(s: bytes)
    requires !Paragraph(s).Got?
    ensures Paragraph(s) == Failed(EOF, [])
    decreases |s|
  {
    var i := IndexOf(s, LF);
    if i != -1 && !IsBlankLine(s[..i + 1]) {
      ParagraphError(s[i + 1..]);
    }
  }

  // ---------------------------------------------------------------- bodies

  /** The rest of the text is the body, a newline of either form, and the tail. */
  predicate Closes(rest: bytes, body: bytes, tail: bytes) {
    rest == body + [LF] + tail || rest == body + [CR, LF] + tail
  }

  /** A counted body is read exactly if its bytes and a newline follow; which error it is otherwise. */
  lemma SizedExactly(n: nat, rest: bytes, body: bytes, tail: bytes)
    ensures Sized(n, rest) == Got(body, tail) <==> |body| == n && Closes(rest, body, tail)
    ensures Sized(n, rest).Failed? && Sized(n, rest).error == MissingNewline <==>
              |rest| > n && rest[n] != LF && !(rest[n] == CR && (|rest| == n + 1 || rest[n + 1] == LF))
    ensures Sized(n, rest).Failed? && Sized(n, rest).error == UnexpectedEOF <==> 0 < |rest| < n
    ensures Sized(n, rest).Failed? ==> Sized(n, rest).error != BadHeader
  {
    if |body| == n && Closes(rest, body, tail) {
      assert rest[..n] == body;
      if rest == body + [LF] + tail {
        assert rest[n] == LF && rest[n + 1..] == tail;
      } else {
        assert rest[n] == CR && rest[n + 1] == LF && rest[n + 2..] == tail;
      }
    }
    if Sized(n, rest).Got? {
      assert rest == rest[..n] + rest[n..];
      assert rest[n] == LF ==> rest == rest[..n] + [LF] + rest[n + 1..];
      assert rest[n] == CR ==> rest == rest[..n] + [CR, LF] + rest[n + 2..];
    }
  }

  /** Any other body is read exactly if it is made of non-blank lines and a blank line of either form follows. */
  lemma UnsizedExactly(rest: bytes, body: bytes, tail: bytes)
    ensures (exists lines :: Paragraph(rest) == Got(lines, tail) && Concat(lines) == body)
       <==> UnbrokenLines(body) && Closes(rest, body, tail)
  {
    if lines :| Paragraph(rest) == Got(lines, tail) && Concat(lines) == body {
      ParagraphYields(rest);
      ConcatUnbroken(lines);
      var blank := ParagraphFrom(rest);
    }
    if UnbrokenLines(body) && Closes(rest, body, tail) {
      var blank: bytes := if rest == body + [LF] + tail then [LF] else [CR, LF];
      BodyLinesText(body);
      BodyLinesConcat(body);
      ParagraphOf(BodyLines(body), blank, tail);
      assert Paragraph(rest) == Got(BodyLines(body), tail);
    }
  }

  lemma {:induction false} BodyLinesText(body: bytes)
    requires UnbrokenLines(body)
    ensures TextLines(BodyLines(body))
    decreases |body|
  {
    if body != [] {
      UnbrokenFirst(body);
      BodyLinesText(RestOfLines(body));
    }
  }

  /** Exactly what is read, for every text whose header block is complete and all colons. */
  lemma ReadExactly(lines: seq<bytes>, blank: bytes, rest: bytes, hs: seq<Header>, body: bytes, tail: bytes)
    requires TextLines(lines) && IsBlankLine(blank) && ParseHeaders(lines) == AllParsed(hs)
    ensures ReadMessage(Text(lines, blank, rest)) == Got(Message(hs, body), tail)
       <==> Closes(rest, body, tail) && Framed(Message(hs, body))
  {
    ParagraphOf(lines, blank, rest);
    if LengthOf(hs) != "" {
      SizedExactly(ParseUint(LengthOf(hs)), rest, body, tail);
    } else {
      UnsizedExactly(rest, body, tail);
    }
  }

  /** The length header counts in any letter case. */
  lemma AnyCaseCounts(name: bytes, body: bytes, tail: bytes)
    requires LowerAll(name) == LowerAll(LENGTH_NAME) && |body| < TWO_64
    ensures ReadMessage(name + ": " + Decimal(|body|) + [LF] + [LF] + (body + [LF] + tail))
         == Got(Message([Header(LENGTH_NAME, Decimal(|body|))], body), tail)
  {
    var digits, rest := Decimal(|body|), body + [LF] + tail;
    var h, line := Header(LENGTH_NAME, digits), name + ": " + digits + [LF];
    LengthLine(name, digits);
    OneLine(line, h);
    CountedFramed(h, body);
    ReadExactly([line], [LF], rest, [h], body, tail);
  }

  lemma CountedFramed(h: Header, body: bytes)
    requires h.name == LENGTH_NAME && h.value == Decimal(|body|) && |body| < TWO_64
    ensures Framed(Message([h], body))
  {
    DecimalRoundTrip(|body|);
  }

  lemma OneLine(line: bytes, h: Header)
    requires ParseHeader(line) == Parsed(h) && IsLine(line) && !IsBlankLine(line)
    ensures ParseHeaders([line]) == AllParsed([h]) && TextLines([line]) && Concat([line]) == line
  {
    assert [line][1..] == [];
    assert ParseHeaders([line][1..]) == AllParsed([]);
    assert [h] + [] == [h];
    assert Concat([line][1..]) == [] && line + [] == line;
  }

  lemma DigitsTight(digits: bytes)
    requires AllDigits(digits)
    ensures LF !in digits && COLON !in digits && Tight(IsSpace, digits)
  {
  }

  lemma LengthNameIsToken()
    ensures IsToken(LENGTH_NAME)
  {
  }

  /** A name that is the length header's up to case has neither white space nor a colon. */
  lemma LengthNameAnyCase(name: bytes)
    requires LowerAll(name) == LowerAll(LENGTH_NAME)
    ensures Canonical(name) == LENGTH_NAME && COLON !in name && LF !in name && Tight(IsSpace, name)
  {
    LengthNameCanonical();
    LengthNameIsToken();
    TokenIgnoresCase(LENGTH_NAME, name);
    CanonicalExactly(LENGTH_NAME, name);
    forall c | c in name ensures IsTokenByte(c) {
    }
    TokenIsPlain(name);
  }

  lemma PlainLine(name: bytes, value: bytes)
    requires LF !in name && LF !in value
    ensures IsLine(name + ": " + value + [LF]) && !IsBlankLine(name + ": " + value + [LF])
  {
    var line := name + ": " + value + [LF];
    assert line[..|line| - 1] == name + ": " + value;
    assert line[|name|] == COLON;
  }

  lemma ParseSpaced(h: Header, name: bytes)
    requires Canonical(name) == h.name && COLON !in name && Tight(IsSpace, name) && Tight(IsSpace, h.value)
    ensures ParseHeader(name + ": " + h.value + [LF]) == Parsed(h)
  {
    ParseTolerant(h, name, [], [], " ", [LF]);
    SpacedParts(name, h.value);
  }

  lemma SpacedParts(name: bytes, value: bytes)
    ensures name + ": " + value + [LF] == [] + name + [] + [COLON] + (" " + value + [LF])
  {
    var sep: bytes := ": ";
    assert sep == [COLON] + " ";
    assert [] + name + [] == name;
    assert name + ([COLON] + " ") + value + [LF] == name + [COLON] + (" " + value + [LF]);
  }

  lemma LengthLine(name: bytes, digits: bytes)
    requires LowerAll(name) == LowerAll(LENGTH_NAME) && AllDigits(digits)
    ensures var line := name + ": " + digits + [LF];
            IsLine(line) && !IsBlankLine(line) && ParseHeader(line) == Parsed(Header(LENGTH_NAME, digits))
  {
    LengthNameAnyCase(name);
    DigitsTight(digits);
    PlainLine(name, digits);
    ParseSpaced(Header(LENGTH_NAME, digits), name);
  }
}
