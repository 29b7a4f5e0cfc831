/**
 interop/writer.go, interop/reader.go and the writing half of interop/header.go and interop/headers.go as
 they run: sequential writes to a sink that may fail at any byte, and loops that consume a buffered source.
 */
module WireIO {
  import opened Basics
  import opened Bytes
  import opened Headers
  import opened WireCodec

  /** An `io.Writer`: it may take fewer bytes than offered, and then reports an error. */
  class ByteSink {
    var written: bytes

    constructor ()
      ensures written == []
    {
      written := [];
    }

    method Write(p: bytes) returns (n: nat, ok: bool)
      modifies this
      ensures n <= |p| && written == old(written) + p[..n]
      ensures ok ==> n == |p|
    {
      n :| 0 <= n <= |p|;
      ok := *;
      ok := ok && n == |p|;
      written := written + p[..n];
    }
  }

  /** What was appended to `before` is an initial part of `text`. */
  predicate WrotePartOf(before: bytes, now: bytes, text: bytes) {
    before <= now && now[|before|..] <= text
  }

  /** One more piece of `text`, added to the running count: `writeDelimiter` and its like. */
  method WriteNext(w: ByteSink, p: bytes, count: nat, ghost start: bytes, ghost text: bytes) returns (n: nat, ok: bool)
    requires count + |p| <= |text| && text[count..count + |p|] == p
    requires w.written == start + text[..count]
    modifies w
    ensures count <= n <= |text| && w.written == start + text[..n]
    ensures ok ==> n == count + |p|
  {
    n, ok := w.Write(p);
    assert text[..count + n] == text[..count] + text[count..count + |p|][..n];
    n := count + n;
  }

  method WriteHeader(h: Header, w: ByteSink) returns (n: nat, ok: bool)
    modifies w
    ensures n <= |HeaderLine(h)| && w.written == old(w.written) + HeaderLine(h)[..n]
    ensures ok ==> n == |HeaderLine(h)|
  {
    ghost var start, line := w.written, HeaderLine(h);
    assert start + line[..0] == start;
    n, ok := WriteNext(w, h.name, 0, start, line);
    if !ok { return; }
    n, ok := WriteNext(w, ": ", n, start, line);
    if !ok { return; }
    n, ok := WriteNext(w, h.value, n, start, line);
    if !ok { return; }
    n, ok := WriteNext(w, [LF], n, start, line);
  }

  lemma {:induction false} PrintHeadersSplit(hs: seq<Header>, i: nat)
    requires i < |hs|
    ensures PrintHeaders(hs[..i + 1]) == PrintHeaders(hs[..i]) + HeaderLine(hs[i])
  {
    if i == 0 {
      assert hs[..1] == [hs[0]];
      assert PrintHeaders([hs[0]]) == HeaderLine(hs[0]) + PrintHeaders([]);
    } else {
      PrintHeadersSplit(hs[1..], i - 1);
      assert hs[..i + 1][1..] == hs[1..][..i] && hs[..i][1..] == hs[1..][..i - 1];
    }
  }

  lemma {:induction false} PrintHeadersPrefix(hs: seq<Header>, i: nat)
    requires i <= |hs|
    ensures PrintHeaders(hs[..i]) <= PrintHeaders(hs)
    decreases |hs| - i
  {
    if i == |hs| {
      assert hs[..i] == hs;
    } else {
      PrintHeadersSplit(hs, i);
      PrintHeadersPrefix(hs, i + 1);
    }
  }

  /**
   The count of a failed call leaves out the bytes of the header that failed, so it is exact only up to
   the last header written whole.
   */
  method WriteHeaders(hs: seq<Header>, w: ByteSink) returns (n: nat, ok: bool)
    modifies w
    ensures ok ==> w.written == old(w.written) + PrintHeaders(hs) && n == |PrintHeaders(hs)|
    ensures !ok ==> exists i: nat, k: nat :: HeadersFailed(hs, n, old(w.written), w.written, i, k)
  {
    n, ok := 0, true;
    for i := 0 to |hs|
      invariant ok
      invariant w.written == old(w.written) + PrintHeaders(hs[..i]) && n == |PrintHeaders(hs[..i])|
    {
      var n1: nat;
      n1, ok := WriteHeader(hs[i], w);
      if !ok {
        assert HeadersFailed(hs, n, old(w.written), w.written, i, n1);
        return;
      }
      n := n + n1;
      PrintHeadersSplit(hs, i);
      assert HeaderLine(hs[i])[..n1] == HeaderLine(hs[i]);
    }
    assert hs[..|hs|] == hs;
  }

  /** The message was cut within the header block: the count and the bytes really written may differ. */
  ghost predicate CutInHeaders(m: Message, n: nat, sent: bytes) {
    exists i :: 0 <= i < |m.headers| && n == |PrintHeaders(m.headers[..i])|
             && n <= |sent| <= n + |HeaderLine(m.headers[i])|
  }

  ghost predicate HeadersFailed(hs: seq<Header>, n: nat, before: bytes, now: bytes, i: nat, k: nat) {
    && i < |hs| && n == |PrintHeaders(hs[..i])| && k <= |HeaderLine(hs[i])|
    && now == before + PrintHeaders(hs[..i]) + HeaderLine(hs[i])[..k]
  }

  lemma HeadersCut(m: Message, n: nat, before: bytes, now: bytes)
    requires exists i: nat, k: nat :: HeadersFailed(m.headers, n, before, now, i, k)
    ensures WrotePartOf(before, now, Print(m)) && CutInHeaders(m, n, now[|before|..])
    ensures n <= |now| - |before|
  {
    var i: nat, k: nat :| HeadersFailed(m.headers, n, before, now, i, k);
    var whole, line := PrintHeaders(m.headers[..i]), HeaderLine(m.headers[i]);
    PrintHeadersSplit(m.headers, i);
    PrintHeadersPrefix(m.headers, i + 1);
    CutPart(before, now, whole, line, k);
    PrintedFirst(m, now[|before|..], PrintHeaders(m.headers[..i + 1]));
  }

  lemma CutPart(before: bytes, now: bytes, whole: bytes, line: bytes, k: nat)
    requires k <= |line| && now == before + whole + line[..k]
    ensures before <= now && now[|before|..] == whole + line[..k] <= whole + line
  {
  }

  lemma PrintedFirst(m: Message, sent: bytes, some: bytes)
    requires sent <= some <= PrintHeaders(m.headers)
    ensures sent <= Print(m)
  {
  }

  /**
   A successful call appends exactly the printed message and returns its length. A failed one has appended an
   initial part of it, and its count is the length of that part unless the failure was inside the header block.
   */
  method WriteMessage(m: Message, w: ByteSink) returns (n: nat, ok: bool)
    modifies w
    ensures ok ==> w.written == old(w.written) + Print(m) && n == |Print(m)|
    ensures WrotePartOf(old(w.written), w.written, Print(m))
    ensures var sent := |w.written| - |old(w.written)|;
            n == sent || (n < sent && CutInHeaders(m, n, w.written[|old(w.written)|..]))
  {
    ghost var start, text := w.written, Print(m);
    n, ok := WriteHeaders(m.headers, w);
    if !ok {
      HeadersCut(m, n, start, w.written);
      return;
    }
    assert start + text[..n] == w.written;
    n, ok := WriteNext(w, [LF], n, start, text);
    if !ok { return; }
    if |m.body| > 0 {
      n, ok := WriteNext(w, m.body, n, start, text);
      if !ok { return; }
    }
    n, ok := WriteNext(w, [LF], n, start, text);
    assert ok ==> text[..n] == text;
  }

  // ---------------------------------------------------------------- reading

  /** The `bufio.Reader` operations the reader uses, over the bytes still to come. */
  class ByteSource {
    var rest: bytes

    constructor (text: bytes)
      ensures rest == text
    {
      rest := text;
    }

    /** `ReadBytes('\n')`: through the next line feed, or the rest with an error. */
    method ReadLine() returns (line: Result<bytes>)
      modifies this
      ensures var i := IndexOf(old(rest), LF);
              if i == -1 then line == Err(EOF) && rest == []
              else line == Ok(old(rest)[..i + 1]) && rest == old(rest)[i + 1..]
    {
      var i := IndexOf(rest, LF);
      if i == -1 {
        line, rest := Err(EOF), [];
      } else {
        line, rest := Ok(rest[..i + 1]), rest[i + 1..];
      }
    }

    method ReadFull(n: nat) returns (p: Result<bytes>)
      modifies this
      ensures if n <= |old(rest)| then p == Ok(old(rest)[..n]) && rest == old(rest)[n..]
              else p == Err(if old(rest) == [] then EOF else UnexpectedEOF) && rest == []
    {
      if n <= |rest| {
        p, rest := Ok(rest[..n]), rest[n..];
      } else {
        p, rest := Err(if rest == [] then EOF else UnexpectedEOF), [];
      }
    }

    method ReadByte() returns (b: Result<byte>)
      modifies this
      ensures if old(rest) == [] then b == Err(EOF) && rest == []
              else b == Ok(old(rest)[0]) && rest == old(rest)[1..]
    {
      if rest == [] {
        b := Err(EOF);
      } else {
        b, rest := Ok(rest[0]), rest[1..];
      }
    }
  }

  ghost function Prefixed(lines: seq<bytes>, o: Outcome<seq<bytes>>): Outcome<seq<bytes>> {
    match o
    case Got(more, rest) => Got(lines + more, rest)
    case Failed(e, rest) => o
  }

  lemma PrefixedNothing(o: Outcome<seq<bytes>>)
    ensures Prefixed([], o) == o
  {
    assert o.Got? ==> [] + o.value == o.value;
  }

  lemma PrefixedTwice(lines: seq<bytes>, line: bytes, o: Outcome<seq<bytes>>)
    ensures Prefixed(lines, Prefixed([line], o)) == Prefixed(lines + [line], o)
  {
    assert o.Got? ==> lines + ([line] + o.value) == lines + [line] + o.value;
  }

  ghost function After(ms: seq<Message>, r: (seq<Message>, ReadError)): (seq<Message>, ReadError) {
    (ms + r.0, r.1)
  }

  lemma AfterNothing(r: (seq<Message>, ReadError))
    ensures After([], r) == r
  {
    assert [] + r.0 == r.0;
  }

  lemma AfterOneMore(ms: seq<Message>, s: bytes)
    ensures match ReadMessage(s)
            case Failed(e, _) => After(ms, ReadAll(s)) == (ms, e)
            case Got(m, rest) => After(ms, ReadAll(s)) == After(ms + [m], ReadAll(rest))
  {
    match ReadMessage(s)
    case Failed(e, _) => assert ms + [] == ms;
    case Got(m, rest) =>
      ReadAllFirst(s, m, rest);
      Associative(ms, [m], ReadAll(rest).0);
  }

  ghost function AfterHeaders(hs: seq<Header>, p: ParsedHeaders): ParsedHeaders {
    if p.AllParsed? then AllParsed(hs + p.headers) else SomeBad
  }

  lemma AfterNoHeaders(p: ParsedHeaders)
    ensures AfterHeaders([], p) == p
  {
    assert p.AllParsed? ==> [] + p.headers == p.headers;
  }

  lemma AfterOneHeader(hs: seq<Header>, lines: seq<bytes>)
    requires lines != []
    ensures AfterHeaders(hs, ParseHeaders(lines))
         == match ParseHeader(lines[0])
            case NoColon => SomeBad
            case Parsed(h) => AfterHeaders(hs + [h], ParseHeaders(lines[1..]))
  {
    var header, more := ParseHeader(lines[0]), ParseHeaders(lines[1..]);
    assert header.Parsed? && more.AllParsed? ==>
        hs + ([header.header] + more.headers) == hs + [header.header] + more.headers;
  }

  method JoinLines(lines: seq<bytes>) returns (body: bytes)
    ensures body == Concat(lines)
  {
    body := [];
    for i := 0 to |lines|
      invariant body + Concat(lines[i..]) == Concat(lines)
    {
      assert lines[i..][1..] == lines[i + 1..];
      body := body + lines[i];
    }
    assert lines[|lines|..] == [];
  }

  /** The loop of `readHeader` over the lines of the paragraph. */
  method ParseLines(lines: seq<bytes>) returns (p: ParsedHeaders)
    ensures p == ParseHeaders(lines)
  {
    var headers: seq<Header> := [];
    AfterNoHeaders(ParseHeaders(lines));
    assert lines[0..] == lines;
    for i := 0 to |lines|
      invariant ParseHeaders(lines) == AfterHeaders(headers, ParseHeaders(lines[i..]))
    {
      AfterOneHeader(headers, lines[i..]);
      assert lines[i..][0] == lines[i] && lines[i..][1..] == lines[i + 1..];
      var header := ParseHeader(lines[i]);
      if header.NoColon? {
        return SomeBad;
      }
      headers := headers + [header.header];
    }
    assert lines[|lines|..] == [];
    return AllParsed(headers);
  }

  class Reader {
    const source: ByteSource

    constructor (source: ByteSource)
      ensures this.source == source
    {
      this.source := source;
    }

    method ReadParagraph() returns (r: Result<seq<bytes>>)
      modifies source
      ensures r == Paragraph(old(source.rest)).Result() && source.rest == Paragraph(old(source.rest)).rest
    {
      var lines: seq<bytes> := [];
      ghost var start := source.rest;
      PrefixedNothing(Paragraph(start));
      while true
        invariant Paragraph(start) == Prefixed(lines, Paragraph(source.rest))
        decreases |source.rest|
      {
        var line := source.ReadLine();
        if line.Err? {
          return Err(line.error);
        }
        if line.value == [LF] || line.value == [CR, LF] {
          assert lines + [] == lines;
          return Ok(lines);
        }
        PrefixedTwice(lines, line.value, Paragraph(source.rest));
        lines := lines + [line.value];
      }
    }

    method ReadHeader() returns (r: Result<seq<Header>>)
      modifies source
      ensures r == ReadHeaders(old(source.rest)).Result() && source.rest == ReadHeaders(old(source.rest)).rest
    {
      var paragraph := ReadParagraph();
      if paragraph.Err? {
        return Err(paragraph.error);
      }
      var parsed := ParseLines(paragraph.value);
      return if parsed.AllParsed? then Ok(parsed.headers) else Err(BadHeader);
    }

    /** The counted body and its newline. */
    method ReadSized(n: nat) returns (r: Result<bytes>)
      modifies source
      ensures r == Sized(n, old(source.rest)).Result() && source.rest == Sized(n, old(source.rest)).rest
    {
      var body := source.ReadFull(n);
      if body.Err? {
        return Err(body.error);
      }
      var newline := source.ReadByte();
      if newline == Ok(CR) {
        newline := source.ReadByte();
      }
      if newline.Err? {
        return Err(newline.error);
      }
      if newline.value != LF {
        return Err(MissingNewline);
      }
      return Ok(body.value);
    }

    method Read() returns (r: Result<Message>)
      modifies source
      ensures r == ReadMessage(old(source.rest)).Result() && source.rest == ReadMessage(old(source.rest)).rest
    {
      var headers := ReadHeader();
      if headers.Err? {
        return Err(headers.error);
      }
      var contentLength := LengthOf(headers.value);
      if contentLength != "" {
        var sized := ReadSized(ParseUint(contentLength));
        if sized.Err? {
          return Err(sized.error);
        }
        return Ok(Message(headers.value, sized.value));
      }
      var paragraph := ReadParagraph();
      if paragraph.Err? {
        return Err(paragraph.error);
      }
      var body := JoinLines(paragraph.value);
      return Ok(Message(headers.value, body));
    }

    /**
     `ReadAllMessages`: the callback gets the messages of the stream in order until it fails or a read does; `err` is the
     read's error, `None` the callback's.
     */
    method ReadAllMessages(callback: Message -> bool) returns (ms: seq<Message>, err: Option<ReadError>)
      modifies source
      ensures ms <= ReadAll(old(source.rest)).0
      ensures forall i | 0 <= i < |ms| - 1 :: callback(ms[i])
      ensures err.Some? ==> (ms, err.value) == ReadAll(old(source.rest)) && forall m | m in ms :: callback(m)
      ensures err.None? ==> ms != [] && !callback(ms[|ms| - 1])
    {
      ms := [];
      ghost var start := source.rest;
      AfterNothing(ReadAll(start));
      while true
        invariant ReadAll(start) == After(ms, ReadAll(source.rest))
        invariant forall m | m in ms :: callback(m)
        decreases |source.rest|
      {
        AfterOneMore(ms, source.rest);
        var message := Read();
        if message.Err? {
          return ms, Some(message.error);
        }
        ms := ms + [message.value];
        if !callback(message.value) {
          return ms, None;
        }
      }
    }
  }
}
