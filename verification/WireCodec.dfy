/**
 The wire format of interop/writer.go and interop/reader.go as functions on octet strings, and the laws
 that tie the printer to the incremental reader. WireIO.dfy holds the code that works byte source by
 byte sink and is proved against these functions.
 */
module WireCodec {
  import opened Bytes
  import opened Headers

  // ---------------------------------------------------------------- printing

  function HeaderLine(h: Header): bytes {
    h.name + ": " + h.value + [LF]
  }

  function PrintHeaders(hs: seq<Header>): bytes {
    if hs == [] then [] else HeaderLine(hs[0]) + PrintHeaders(hs[1..])
  }

  function Print(m: Message): bytes {
    PrintHeaders(m.headers) + [LF] + m.body + [LF]
  }

  /** The text on the wire: a line for each header, in order, a blank line, the body and a newline. */
  lemma PrintedText(name: bytes, value: bytes, hs: seq<Header>, body: bytes)
    ensures Print(Message([], body)) == "\n" + body + "\n"
    ensures Print(Message([Header(name, value)] + hs, body)) == name + ": " + value + "\n" + Print(Message(hs, body))
  {
    var h := Header(name, value);
    assert ([h] + hs)[1..] == hs;
    assert [] + [LF] + body + [LF] == "\n" + body + "\n";
    assert HeaderLine(h) + PrintHeaders(hs) + [LF] + body + [LF] == HeaderLine(h) + (PrintHeaders(hs) + [LF] + body + [LF]);
  }

  function PrintAll(ms: seq<Message>): bytes {
    if ms == [] then [] else Print(ms[0]) + PrintAll(ms[1..])
  }

  // ---------------------------------------------------------------- reading

  datatype ReadError = EOF | UnexpectedEOF | BadHeader | MissingNewline

  datatype Result<+T> = Ok(value: T) | Err(error: ReadError)

  /** What a read yields, and what it leaves unread. */
  datatype Outcome<+T> = Got(value: T, rest: bytes) | Failed(error: ReadError, rest: bytes) {
    function Result(): Result<T> {
      match this
      case Got(v, _) => Ok(v)
      case Failed(e, _) => Err(e)
    }
  }

  /** A blank line ends a paragraph. */
  predicate IsBlankLine(line: bytes) {
    line == [LF] || line == [CR, LF]
  }

  /** The lines up to the next blank line, which is consumed too. */
  function Paragraph(s: bytes): (o: Outcome<seq<bytes>>)
    ensures o.Got? ==> |o.rest| < |s|
    decreases |s|
  {
    var i := IndexOf(s, LF);
    if i == -1 then Failed(EOF, [])
    else if IsBlankLine(s[..i + 1]) then Got([], s[i + 1..])
    else
      match Paragraph(s[i + 1..])
      case Got(lines, rest) => Got([s[..i + 1]] + lines, rest)
      case Failed(e, rest) => Failed(e, rest)
  }

  datatype ParsedHeader = Parsed(header: Header) | NoColon

  function ParseHeader(line: bytes): ParsedHeader {
    var i := IndexOf(line, COLON);
    if i == -1 then NoColon
    else Parsed(NewHeader(Trim(IsSpace, line[..i]), Trim(IsSpace, line[i + 1..])))
  }

  datatype ParsedHeaders = AllParsed(headers: seq<Header>) | SomeBad

  function ParseHeaders(lines: seq<bytes>): ParsedHeaders {
    if lines == [] then AllParsed([])
    else
      match ParseHeader(lines[0])
      case NoColon => SomeBad
      case Parsed(h) =>
        match ParseHeaders(lines[1..])
        case SomeBad => SomeBad
        case AllParsed(hs) => AllParsed([h] + hs)
  }

  function ReadHeaders(s: bytes): (o: Outcome<seq<Header>>)
    ensures o.Got? ==> |o.rest| < |s|
  {
    match Paragraph(s)
    case Failed(e, rest) => Failed(e, rest)
    case Got(lines, rest) =>
      match ParseHeaders(lines)
      case SomeBad => Failed(BadHeader, rest)
      case AllParsed(hs) => Got(hs, rest)
  }

  /** Exactly `n` bytes, then a line feed that a carriage return may precede. */
  function Sized(n: nat, s: bytes): (o: Outcome<bytes>)
    ensures o.Got? ==> |o.rest| < |s| && |o.value| == n
  {
    if |s| < n then Failed(if s == [] then EOF else UnexpectedEOF, [])
    else if |s| == n then Failed(EOF, [])
    else if s[n] == CR then
      if |s| == n + 1 then Failed(EOF, [])
      else if s[n + 1] == LF then Got(s[..n], s[n + 2..])
      else Failed(MissingNewline, s[n + 2..])
    else if s[n] == LF then Got(s[..n], s[n + 1..])
    else Failed(MissingNewline, s[n + 1..])
  }

  function Concat(lines: seq<bytes>): bytes {
    if lines == [] then [] else lines[0] + Concat(lines[1..])
  }

  function ReadBody(hs: seq<Header>, s: bytes): (o: Outcome<bytes>)
    ensures o.Got? ==> |o.rest| < |s|
  {
    if LengthOf(hs) != "" then Sized(ParseUint(LengthOf(hs)), s)
    else
      match Paragraph(s)
      case Failed(e, rest) => Failed(e, rest)
      case Got(lines, rest) => Got(Concat(lines), rest)
  }

  function ReadMessage(s: bytes): (o: Outcome<Message>)
    ensures o.Got? ==> |o.rest| < |s|
  {
    match ReadHeaders(s)
    case Failed(e, rest) => Failed(e, rest)
    case Got(hs, rest) =>
      match ReadBody(hs, rest)
      case Failed(e, rest') => Failed(e, rest')
      case Got(body, rest') => Got(Message(hs, body), rest')
  }

  /** Reading until a read fails: the messages, and the error that ends the loop. */
  function ReadAll(s: bytes): (seq<Message>, ReadError)
    decreases |s|
  {
    match ReadMessage(s)
    case Failed(e, _) => ([], e)
    case Got(m, rest) => ([m] + ReadAll(rest).0, ReadAll(rest).1)
  }

  // ---------------------------------------------------------------- well-formed messages

  predicate GoodHeader(h: Header) {
    && Canonical(h.name) == h.name && COLON !in h.name && LF !in h.name && Tight(IsSpace, h.name)
    && LF !in h.value && Tight(IsSpace, h.value)
  }

  predicate GoodHeaders(hs: seq<Header>) {
    forall h | h in hs :: GoodHeader(h)
  }

  /** Empty, or line-feed terminated lines none of which is blank. */
  predicate UnbrokenLines(s: bytes)
    decreases |s|
  {
    s == [] ||
    var i := IndexOf(s, LF);
    i != -1 && !IsBlankLine(s[..i + 1]) && UnbrokenLines(s[i + 1..])
  }

  /** The body is delimited as the headers announce it. */
  predicate Framed(m: Message) {
    if LengthOf(m.headers) != "" then ParseUint(LengthOf(m.headers)) == |m.body|
    else UnbrokenLines(m.body)
  }

  predicate WellFormed(m: Message) {
    GoodHeaders(m.headers) && Framed(m)
  }

  // ---------------------------------------------------------------- the reader undoes the printer

  /** A line: its only line feed is its last byte. */
  predicate IsLine(line: bytes) {
    |line| > 0 && line[|line| - 1] == LF && LF !in line[..|line| - 1]
  }

  lemma Regroup(a: bytes, b: bytes, c: bytes, d: bytes)
    ensures a + b + c + d == a + (b + c + d)
  {
  }

  lemma FirstLine(line: bytes, t: bytes)
    requires IsLine(line)
    ensures IndexOf(line + t, LF) == |line| - 1
    ensures (line + t)[..|line|] == line && (line + t)[|line|..] == t
  {
    var front := line[..|line| - 1];
    assert line + t == front + [LF] + t;
    IndexOfFirst(front, LF, t);
  }

  lemma ParagraphEnds(s: bytes, t: bytes)
    requires s == [LF] + t
    ensures Paragraph(s) == Got([], t)
  {
    FirstLine([LF], t);
  }

  lemma ParagraphGoesOn(s: bytes, line: bytes, t: bytes, lines: seq<bytes>, rest: bytes)
    requires s == line + t && IsLine(line) && !IsBlankLine(line)
    requires Paragraph(t) == Got(lines, rest)
    ensures Paragraph(s) == Got([line] + lines, rest)
  {
    FirstLine(line, t);
  }

  lemma ConcatFirst(line: bytes, lines: seq<bytes>)
    ensures Concat([line] + lines) == line + Concat(lines)
  {
    assert ([line] + lines)[1..] == lines;
  }

  /** The first line of an unbroken body, and what remains. */
  function FirstLineOf(body: bytes): bytes {
    body[..IndexOf(body, LF) + 1]
  }

  function RestOfLines(body: bytes): bytes {
    body[IndexOf(body, LF) + 1..]
  }

  lemma UnbrokenFirst(body: bytes)
    requires UnbrokenLines(body) && body != []
    ensures body == FirstLineOf(body) + RestOfLines(body)
    ensures IsLine(FirstLineOf(body)) && !IsBlankLine(FirstLineOf(body))
    ensures UnbrokenLines(RestOfLines(body)) && |RestOfLines(body)| < |body|
  {
    var i := IndexOf(body, LF);
    assert FirstLineOf(body)[..i] == body[..i];
  }

  /** The lines of an unbroken body. */
  function BodyLines(body: bytes): seq<bytes>
    requires UnbrokenLines(body)
    decreases |body|
  {
    if body == [] then []
    else
      UnbrokenFirst(body);
      [FirstLineOf(body)] + BodyLines(RestOfLines(body))
  }

  lemma {:induction false} BodyLinesConcat(body: bytes)
    requires UnbrokenLines(body)
    ensures Concat(BodyLines(body)) == body
    decreases |body|
  {
    if body != [] {
      UnbrokenFirst(body);
      BodyLinesConcat(RestOfLines(body));
      ConcatFirst(FirstLineOf(body), BodyLines(RestOfLines(body)));
    }
  }

  lemma {:induction false} UnbrokenRoundTrip(body: bytes, tail: bytes)
    requires UnbrokenLines(body)
    ensures Paragraph(body + [LF] + tail) == Got(BodyLines(body), tail)
    decreases |body|
  {
    if body == [] {
      ParagraphEnds(body + [LF] + tail, tail);
    } else {
      UnbrokenFirst(body);
      var line, more := FirstLineOf(body), RestOfLines(body);
      UnbrokenRoundTrip(more, tail);
      Regroup(line, more, [LF], tail);
      ParagraphGoesOn(body + [LF] + tail, line, more + [LF] + tail, BodyLines(more), tail);
    }
  }

  lemma HeaderLineIsLine(h: Header)
    requires GoodHeader(h)
    ensures IsLine(HeaderLine(h)) && !IsBlankLine(HeaderLine(h))
  {
    var line := HeaderLine(h);
    assert line[..|line| - 1] == h.name + ": " + h.value;
    assert line[|h.name|] == COLON;
  }

  lemma HeaderLineRoundTrip(h: Header)
    requires GoodHeader(h)
    ensures IsLine(HeaderLine(h)) && !IsBlankLine(HeaderLine(h))
    ensures ParseHeader(HeaderLine(h)) == Parsed(h)
  {
    var line := HeaderLine(h);
    var after := " " + h.value + [LF];
    HeaderLineIsLine(h);
    assert line == h.name + [COLON] + after;
    CutAtFirst(line, h.name, COLON, after);
    TrimNothing(IsSpace, h.name);
    TrimPadded(IsSpace, " ", h.value, [LF]);
  }

  function HeaderLines(hs: seq<Header>): seq<bytes> {
    if hs == [] then [] else [HeaderLine(hs[0])] + HeaderLines(hs[1..])
  }

  lemma {:induction false} HeaderLinesRead(hs: seq<Header>, tail: bytes)
    requires GoodHeaders(hs)
    ensures Paragraph(PrintHeaders(hs) + [LF] + tail) == Got(HeaderLines(hs), tail)
  {
    if hs == [] {
      ParagraphEnds(PrintHeaders(hs) + [LF] + tail, tail);
    } else {
      HeaderLinesRead(hs[1..], tail);
      HeaderLineRoundTrip(hs[0]);
      Regroup(HeaderLine(hs[0]), PrintHeaders(hs[1..]), [LF], tail);
      ParagraphGoesOn(PrintHeaders(hs) + [LF] + tail, HeaderLine(hs[0]),
                      PrintHeaders(hs[1..]) + [LF] + tail, HeaderLines(hs[1..]), tail);
    }
  }

  lemma {:induction false} ParseEach(lines: seq<bytes>, hs: seq<Header>)
    requires |lines| == |hs| && forall i | 0 <= i < |hs| :: ParseHeader(lines[i]) == Parsed(hs[i])
    ensures ParseHeaders(lines) == AllParsed(hs)
  {
    if hs != [] {
      ParseEach(lines[1..], hs[1..]);
      assert hs == [hs[0]] + hs[1..];
    }
  }

  lemma {:induction false} HeaderLinesAt(hs: seq<Header>)
    ensures |HeaderLines(hs)| == |hs| && forall i | 0 <= i < |hs| :: HeaderLines(hs)[i] == HeaderLine(hs[i])
  {
    if hs != [] {
      HeaderLinesAt(hs[1..]);
    }
  }

  lemma HeaderLinesParse(hs: seq<Header>)
    requires GoodHeaders(hs)
    ensures ParseHeaders(HeaderLines(hs)) == AllParsed(hs)
  {
    var lines := HeaderLines(hs);
    HeaderLinesAt(hs);
    forall i | 0 <= i < |hs| ensures ParseHeader(lines[i]) == Parsed(hs[i]) {
      assert hs[i] in hs;
      HeaderLineRoundTrip(hs[i]);
    }
    ParseEach(lines, hs);
  }

  lemma HeadersRoundTrip(hs: seq<Header>, tail: bytes)
    requires GoodHeaders(hs)
    ensures ReadHeaders(PrintHeaders(hs) + [LF] + tail) == Got(hs, tail)
  {
    HeaderLinesRead(hs, tail);
    HeaderLinesParse(hs);
  }

  lemma BodyRoundTrip(m: Message, tail: bytes)
    requires Framed(m)
    ensures ReadBody(m.headers, m.body + [LF] + tail) == Got(m.body, tail)
  {
    var s := m.body + [LF] + tail;
    if LengthOf(m.headers) == "" {
      UnbrokenRoundTrip(m.body, tail);
      BodyLinesConcat(m.body);
    } else {
      assert s[|m.body|] == LF && s[..|m.body|] == m.body && s[|m.body| + 1..] == tail;
    }
  }

  lemma PrintedBehind(m: Message, tail: bytes)
    ensures Print(m) + tail == PrintHeaders(m.headers) + [LF] + (m.body + [LF] + tail)
  {
  }

  /** One read consumes exactly the bytes of a printed well-formed message and gives it back. */
  lemma RoundTrip(m: Message, tail: bytes)
    requires WellFormed(m)
    ensures ReadMessage(Print(m) + tail) == Got(m, tail)
  {
    PrintedBehind(m, tail);
    HeadersRoundTrip(m.headers, m.body + [LF] + tail);
    BodyRoundTrip(m, tail);
  }

  // ---------------------------------------------------------------- the reader yields nothing else

  predicate TextLines(lines: seq<bytes>) {
    forall line | line in lines :: IsLine(line) && !IsBlankLine(line)
  }

  lemma OneMoreTextLine(s: bytes, i: nat, lines: seq<bytes>)
    requires i < |s| && s[i] == LF && LF !in s[..i] && !IsBlankLine(s[..i + 1]) && TextLines(lines)
    ensures TextLines([s[..i + 1]] + lines)
  {
    assert s[..i + 1][..i] == s[..i];
  }

  lemma {:induction false} ParagraphYields(s: bytes)
    requires Paragraph(s).Got?
    ensures TextLines(Paragraph(s).value)
    decreases |s|
  {
    var i := IndexOf(s, LF);
    if !IsBlankLine(s[..i + 1]) {
      ParagraphYields(s[i + 1..]);
      OneMoreTextLine(s, i, Paragraph(s[i + 1..]).value);
    }
  }

  lemma {:induction false} ConcatUnbroken(lines: seq<bytes>)
    requires TextLines(lines)
    ensures UnbrokenLines(Concat(lines))
  {
    if lines != [] {
      ConcatUnbroken(lines[1..]);
      FirstLine(lines[0], Concat(lines[1..]));
    }
  }

  /** Trimming a line's end removes its line feed. */
  lemma TrimmedHasNoLineFeed(s: bytes)
    requires s != [] ==> LF !in s[..|s| - 1]
    ensures LF !in Trim(IsSpace, s)
  {
    TrimTight(IsSpace, s);
    var v := Trim(IsSpace, s);
    var a, b :| 0 <= a <= b <= |s| && v == s[a..b];
    forall k | 0 <= k < |v| ensures v[k] != LF {
      if a + k < |s| - 1 {
        assert v[k] == s[..|s| - 1][a + k];
      }
    }
  }

  lemma ParsedHeaderGood(line: bytes)
    requires IsLine(line) && ParseHeader(line).Parsed?
    ensures GoodHeader(ParseHeader(line).header)
  {
    var i := IndexOf(line, COLON);
    var front, after := line[..i], line[i + 1..];
    assert forall k | 0 <= k < |line| - 1 :: line[k] == line[..|line| - 1][k];
    assert forall k | 0 <= k < |after| - 1 :: after[k] == line[i + 1 + k];
    TrimmedHasNoLineFeed(front);
    TrimmedHasNoLineFeed(after);
    TrimTight(IsSpace, front);
    TrimTight(IsSpace, after);
    CanonicalIdempotent(Trim(IsSpace, front));
  }

  lemma {:induction false} ParsedHeadersGood(lines: seq<bytes>)
    requires TextLines(lines) && ParseHeaders(lines).AllParsed?
    ensures GoodHeaders(ParseHeaders(lines).headers)
  {
    if lines != [] {
      ParsedHeaderGood(lines[0]);
      ParsedHeadersGood(lines[1..]);
    }
  }

  /** Every message any read of any input returns is well-formed. */
  lemma ReadYieldsWellFormed(s: bytes)
    requires ReadMessage(s).Got?
    ensures WellFormed(ReadMessage(s).value)
  {
    ParagraphYields(s);
    ParsedHeadersGood(Paragraph(s).value);
    var hs, rest := ReadHeaders(s).value, ReadHeaders(s).rest;
    if LengthOf(hs) == "" {
      ParagraphYields(rest);
      ConcatUnbroken(Paragraph(rest).value);
    }
  }

  /** Well-formedness is exactly what makes a message survive the wire, whatever follows it. */
  lemma RoundTripExactly(m: Message)
    ensures WellFormed(m) <==> forall tail :: ReadMessage(Print(m) + tail) == Got(m, tail)
  {
    if WellFormed(m) {
      forall tail ensures ReadMessage(Print(m) + tail) == Got(m, tail) {
        RoundTrip(m, tail);
      }
    } else if ReadMessage(Print(m) + []) == Got(m, []) {
      ReadYieldsWellFormed(Print(m) + []);
    }
  }

  /** Printing what was read and reading it again changes nothing, whatever the first input was. */
  lemma ReprintStable(s: bytes, tail: bytes)
    requires ReadMessage(s).Got?
    ensures ReadMessage(Print(ReadMessage(s).value) + tail) == Got(ReadMessage(s).value, tail)
  {
    ReadYieldsWellFormed(s);
    RoundTrip(ReadMessage(s).value, tail);
  }

  /** Messages written back to back are read back one by one, then the stream is at its end. */
  lemma {:induction false} RoundTripAll(ms: seq<Message>)
    requires forall m | m in ms :: WellFormed(m)
    ensures ReadAll(PrintAll(ms)) == (ms, EOF)
  {
    if ms != [] {
      var m, more := ms[0], ms[1..];
      RoundTrip(m, PrintAll(more));
      RoundTripAll(more);
      ReadAllFirst(PrintAll(ms), m, PrintAll(more));
      assert ms == [m] + more;
    } else {
      NothingToRead();
    }
  }

  lemma ReadAllFirst(s: bytes, m: Message, rest: bytes)
    requires ReadMessage(s) == Got(m, rest)
    ensures ReadAll(s) == ([m] + ReadAll(rest).0, ReadAll(rest).1)
  {
  }

  lemma NothingToRead()
    ensures ReadAll([]) == ([], EOF)
  {
  }

  lemma {:induction false} PrintAllAppend(ms: seq<Message>, m: Message)
    ensures PrintAll(ms + [m]) == PrintAll(ms) + Print(m)
  {
    if ms == [] {
      assert [] + [m] == [m];
      assert PrintAll([m]) == Print(m) + PrintAll([]);
    } else {
      assert (ms + [m])[1..] == ms[1..] + [m];
      PrintAllAppend(ms[1..], m);
    }
  }
}
