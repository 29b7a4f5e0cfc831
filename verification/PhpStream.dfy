/**
 The PHP byte readers and message reader (php/Interop/Buffer.php, ByteStreamReader.php, StreamReader.php, Header.php,
 Headers.php). Both byte readers are proved against the same two functions, so that they agree until the first EOF,
 however the operating system splits the stream into chunks.
 */
module PhpStream {
  import opened Basics
  import opened Bytes
  import opened Headers
  import opened Keys
  import opened WireCodec

  predicate EndsWith(s: bytes, sep: bytes) {
    |sep| <= |s| && s[|s| - |sep|..] == sep
  }

  /** The end of the first occurrence of `sep` that ends at `at` or later, or -1. */
  function FirstEnd(s: bytes, sep: bytes, at: nat): (e: int)
    requires at <= |s|
    ensures e == -1 || at <= e <= |s|
    ensures e >= 0 ==> EndsWith(s[..e], sep) && forall f | at <= f < e :: !EndsWith(s[..f], sep)
    ensures e == -1 ==> forall f | at <= f <= |s| :: !EndsWith(s[..f], sep)
    decreases |s| - at
  {
    if EndsWith(s[..at], sep) then at
    else if at == |s| then -1
    else FirstEnd(s, sep, at + 1)
  }

  datatype Taken = Piece(piece: bytes, rest: bytes) | Ended

  /** Through the first occurrence of the separator. */
  function TakeUntil(s: bytes, sep: bytes): Taken {
    var e := FirstEnd(s, sep, 0);
    if e == -1 then Ended else Piece(s[..e], s[e..])
  }

  function TakeBytes(s: bytes, n: nat): Taken {
    if n <= |s| then Piece(s[..n], s[n..]) else Ended
  }

  /** The result a reader gives for what it should have taken; `None` is the EOF exception. */
  function ResultOf(t: Taken): Option<bytes> {
    if t.Piece? then Some(t.piece) else None
  }

  lemma FirstEndUnique(s: bytes, sep: bytes, e: nat)
    requires e <= |s| && EndsWith(s[..e], sep)
    requires forall f | 0 <= f < e :: !EndsWith(s[..f], sep)
    ensures FirstEnd(s, sep, 0) == e
  {
  }

  lemma FirstEndInPrefix(s: bytes, sep: bytes, n: nat)
    requires n <= |s|
    ensures FirstEnd(s[..n], sep, 0) != -1 ==> FirstEnd(s, sep, 0) == FirstEnd(s[..n], sep, 0)
    ensures FirstEnd(s[..n], sep, 0) == -1 ==> forall f | 0 <= f <= n :: !EndsWith(s[..f], sep)
  {
    assert forall f | 0 <= f <= n :: s[..n][..f] == s[..f];
  }

  // ---------------------------------------------------------------- the two byte readers

  class Buffer {
    var buffer: bytes
    var cursor: nat
    var closed: bool

    ghost predicate Valid() reads this {
      cursor <= |buffer|
    }

    ghost function Contents(): bytes
      requires Valid()
      reads this
    {
      buffer[cursor..]
    }

    constructor (text: bytes)
      ensures Valid() && Contents() == text && !closed
    {
      buffer, cursor, closed := text, 0, false;
      new;
      assert text[0..] == text;
    }

    method ReadBytes(n: int) returns (r: Option<bytes>)
      requires Valid()
      modifies this`cursor
      ensures Valid()
      ensures closed ==> r == None
      ensures !closed ==> var t := TakeBytes(old(Contents()), if n < 0 then 0 else n);
                          r == ResultOf(t) && Contents() == if t.Piece? then t.rest else []
    {
      if closed {
        return None;
      }
      if n <= 0 {
        return Some([]);
      }
      if n > |buffer| - cursor {
        cursor := |buffer|;
        return None;
      }
      r := Some(buffer[cursor..cursor + n]);
      assert buffer[cursor..][..n] == buffer[cursor..cursor + n];
      cursor := cursor + n;
    }

    method ReadUntil(sep: bytes) returns (r: Option<bytes>)
      requires Valid()
      modifies this`cursor
      ensures Valid()
      ensures closed ==> r == None
      ensures !closed ==> var t := TakeUntil(old(Contents()), sep);
                          r == ResultOf(t) && Contents() == if t.Piece? then t.rest else []
    {
      var e := FirstEnd(buffer[cursor..], sep, 0);
      if e == -1 {
        cursor := |buffer|;
        return None;
      }
      r := ReadBytes(e);
    }

    method WriteBytes(text: bytes) returns (ok: bool)
      requires Valid()
      modifies this`buffer
      ensures Valid() && ok == !closed
      ensures Contents() == if ok then old(Contents()) + text else old(Contents())
    {
      ok := !closed;
      if ok {
        buffer := buffer + text;
      }
    }
  }

  /** A blocking stream: `fread` may return less than asked for, and end of file shows only once it was hit. */
  class Resource {
    var rest: bytes
    var eof: bool

    constructor (text: bytes)
      ensures rest == text && !eof
    {
      rest, eof := text, false;
    }

    method Getc() returns (c: Option<byte>)
      modifies this
      ensures if old(rest) == [] then c == None && rest == [] else c == Some(old(rest)[0]) && rest == old(rest)[1..]
      ensures eof ==> rest == []
    {
      if rest == [] {
        c, eof := None, true;
      } else {
        c, rest, eof := Some(rest[0]), rest[1..], false;
      }
    }

    method Read(n: nat) returns (chunk: bytes)
      requires n > 0
      modifies this
      ensures |chunk| <= n && old(rest) == chunk + rest
      ensures chunk == [] ==> eof
      ensures eof ==> rest == []
    {
      if rest == [] {
        chunk, eof := [], true;
        return;
      }
      var k :| 1 <= k <= n && k <= |rest|;
      chunk, rest := rest[..k], rest[k..];
      eof := *;
      eof := eof && rest == [];
    }
  }

  class ByteStreamReader {
    const resource: Resource
    var buffer: bytes

    ghost predicate Valid() reads this, resource {
      resource.eof ==> resource.rest == []
    }

    ghost function Contents(): bytes reads this, resource {
      buffer + resource.rest
    }

    constructor (resource: Resource)
      requires resource.eof ==> resource.rest == []
      ensures Valid() && this.resource == resource && Contents() == resource.rest
    {
      this.resource := resource;
      buffer := [];
    }

    method Shift(n: nat) returns (piece: bytes)
      requires n <= |buffer|
      modifies this
      ensures piece == old(buffer)[..n] && buffer == old(buffer)[n..]
      ensures Contents() == old(Contents())[n..] && piece == old(Contents())[..n]
    {
      piece := buffer[..n];
      buffer := buffer[n..];
    }

    /** On EOF the bytes read so far stay buffered, unlike in `Buffer`. */
    method ReadUntil(sep: bytes) returns (r: Option<bytes>)
      requires Valid()
      modifies this, resource
      ensures Valid()
      ensures var t := TakeUntil(old(Contents()), sep);
              r == ResultOf(t) && Contents() == if t.Piece? then t.rest else old(Contents())
    {
      ghost var start := Contents();
      var e := FirstEnd(buffer, sep, 0);
      assert start[..|buffer|] == buffer;
      FirstEndInPrefix(start, sep, |buffer|);
      if e != -1 {
        var piece := Shift(e);
        return Some(piece);
      }
      while true
        invariant Valid() && Contents() == start
        invariant forall f | 0 <= f <= |buffer| :: !EndsWith(start[..f], sep)
        decreases |resource.rest|
      {
        var c := resource.Getc();
        if c.None? {
          assert buffer == start;
          return None;
        }
        buffer := buffer + [c.value];
        assert Contents() == start && start[..|buffer|] == buffer;
        if EndsWith(buffer, sep) {
          FirstEndUnique(start, sep, |buffer|);
          var piece := Shift(|buffer|);
          return Some(piece);
        }
      }
    }

    method ReadBytes(n: nat) returns (r: Option<bytes>)
      requires Valid()
      modifies this, resource
      ensures Valid()
      ensures var t := TakeBytes(old(Contents()), n);
              r == ResultOf(t) && Contents() == if t.Piece? then t.rest else old(Contents())
    {
      ghost var start := Contents();
      while true
        invariant Valid() && Contents() == start
        decreases |resource.rest|, !resource.eof
      {
        if |buffer| >= n {
          var piece := Shift(n);
          return Some(piece);
        }
        if resource.eof {
          return None;
        }
        ghost var before := resource.rest;
        var chunk := resource.Read(n - |buffer|);
        assert buffer + chunk + resource.rest == buffer + before;
        buffer := buffer + chunk;
      }
    }
  }

  // ---------------------------------------------------------------- messages

  /** What PHP's `trim` removes: not the form feed, but the zero byte. */
  predicate IsPhpBlank(c: byte) {
    c in {' ', '\t', LF, CR, '\U{0B}', '\0'}
  }

  function CanonicalName(name: bytes): bytes {
    CanonicalizeKey(Trim(IsPhpBlank, name))
  }

  /** The loop of `canonicalName` over the array of parts: one part at a time, in place. */
  method CapitaliseParts(parts: array<bytes>)
    modifies parts
    ensures parts[..] == CapitaliseAll(old(parts[..]))
  {
    for k := 0 to parts.Length
      invariant forall i | 0 <= i < k :: parts[i] == Capitalise(old(parts[i]))
      invariant forall i | k <= i < parts.Length :: parts[i] == old(parts[i])
    {
      parts[k] := Capitalise(parts[k]);
    }
  }

  method BuildCanonicalName(name: bytes) returns (r: bytes)
    ensures r == CanonicalName(name)
    ensures CanonicalizeKey(r) == r && forall c | c in r :: !IsSpace(c)
    ensures LowerAll(r) == LowerAll(Squeeze(Trim(IsPhpBlank, name))) && Cased(r, true)
  {
    var split := Split(Trim(IsPhpBlank, name));
    var parts := new bytes[|split|](i requires 0 <= i < |split| => split[i]);
    assert parts[..] == split;
    CapitaliseParts(parts);
    CanonicalizeIdempotent(Trim(IsPhpBlank, name));
    CanonicalizeMeaning(Trim(IsPhpBlank, name));
    CanonicalKeysHaveNoSpace(CanonicalName(name));
    return Join(parts[..]);
  }

  /** `Header::parse`: trim, then split once at a colon and the white space after it. */
  function PhpParseHeader(line: bytes): ParsedHeader {
    var t := Trim(IsPhpBlank, line);
    var i := IndexOf(t, COLON);
    if i == -1 then NoColon
    else Parsed(Header(CanonicalName(t[..i]), TrimLeft(IsSpace, t[i + 1..])))
  }

  function PhpParseHeaders(lines: seq<bytes>): ParsedHeaders {
    if lines == [] then AllParsed([])
    else
      match PhpParseHeader(lines[0])
      case NoColon => SomeBad
      case Parsed(h) =>
        match PhpParseHeaders(lines[1..])
        case SomeBad => SomeBad
        case AllParsed(hs) => AllParsed([h] + hs)
  }

  /** `Headers::offsetGet` of a name that is already canonical; "" stands for null too. */
  function PhpGet(hs: seq<Header>, key: bytes): bytes {
    if hs == [] then "" else if hs[0].name == key then hs[0].value else PhpGet(hs[1..], key)
  }

  datatype PhpError = PhpEOF | InvalidHeader | Unexpected

  datatype PhpResult<+T> = PhpGot(value: T, rest: bytes) | PhpFailed(error: PhpError)

  function PhpParagraph(s: bytes): PhpResult<seq<bytes>> {
    match Paragraph(s)
    case Got(lines, rest) => PhpGot(lines, rest)
    case Failed(_, _) => PhpFailed(PhpEOF)
  }

  /** A line feed that a carriage return may precede; the value does not matter. */
  function PhpNewline(s: bytes): PhpResult<bytes> {
    if s == [] || s == [CR] then PhpFailed(PhpEOF)
    else if s[0] == LF then PhpGot([], s[1..])
    else if s[0] == CR && s[1] == LF then PhpGot([], s[2..])
    else PhpFailed(Unexpected)
  }

  /** `readLength`: the counted bytes, and the newline. */
  function PhpSized(n: nat, s: bytes): PhpResult<bytes> {
    if |s| < n then PhpFailed(PhpEOF)
    else
      match PhpNewline(s[n..])
      case PhpGot(_, rest) => PhpGot(s[..n], rest)
      case PhpFailed(e) => PhpFailed(e)
  }

  function PhpBody(hs: seq<Header>, s: bytes, intval: bytes -> nat): PhpResult<bytes> {
    if PhpGet(hs, LENGTH_NAME) != "" then PhpSized(intval(PhpGet(hs, LENGTH_NAME)), s)
    else
      match PhpParagraph(s)
      case PhpGot(lines, rest) => PhpGot(Concat(lines), rest)
      case PhpFailed(e) => PhpFailed(e)
  }

  /** `StreamReader::read`, for an `intval` that yields a natural number. */
  function PhpRead(s: bytes, intval: bytes -> nat): PhpResult<Message> {
    match PhpParagraph(s)
    case PhpFailed(e) => PhpFailed(e)
    case PhpGot(lines, rest) =>
      match PhpParseHeaders(lines)
      case SomeBad => PhpFailed(InvalidHeader)
      case AllParsed(hs) =>
        match PhpBody(hs, rest, intval)
        case PhpFailed(e) => PhpFailed(e)
        case PhpGot(body, rest') => PhpGot(Message(hs, body), rest')
  }

  /** A line read by separator is the line found by its first line feed. */
  lemma LineBySeparator(s: bytes)
    ensures TakeUntil(s, [LF]) == var i := IndexOf(s, LF); if i == -1 then Ended else Piece(s[..i + 1], s[i + 1..])
  {
    forall f | 0 <= f <= |s| ensures EndsWith(s[..f], [LF]) == (f > 0 && s[f - 1] == LF) {
      assert f > 0 ==> s[..f][f - 1..] == [s[f - 1]];
    }
    var i := IndexOf(s, LF);
    if i != -1 {
      forall f | 0 <= f < i + 1 ensures !EndsWith(s[..f], [LF]) {
        assert f > 0 ==> s[f - 1] == s[..i][f - 1];
      }
      FirstEndUnique(s, [LF], i + 1);
    }
  }

  lemma OneByte(s: bytes, n: nat)
    requires n <= |s|
    ensures TakeBytes(s[n..], 1) == if n < |s| then Piece([s[n]], s[n + 1..]) else Ended
  {
    if n < |s| {
      assert s[n..][..1] == [s[n]] && s[n..][1..] == s[n + 1..];
    }
  }

  ghost function PhpPrefixed(lines: seq<bytes>, r: PhpResult<seq<bytes>>): PhpResult<seq<bytes>> {
    if r.PhpGot? then PhpGot(lines + r.value, r.rest) else r
  }

  lemma PhpPrefixedTwice(lines: seq<bytes>, line: bytes, r: PhpResult<seq<bytes>>)
    ensures PhpPrefixed(lines, PhpPrefixed([line], r)) == PhpPrefixed(lines + [line], r)
    ensures PhpPrefixed([], r) == r
  {
    if r.PhpGot? {
      assert lines + ([line] + r.value) == lines + [line] + r.value;
      assert [] + r.value == r.value;
    }
  }

  lemma PhpParagraphStep(s: bytes)
    ensures var i := IndexOf(s, LF);
            PhpParagraph(s) == if i == -1 then PhpFailed(PhpEOF)
                               else if IsBlankLine(s[..i + 1]) then PhpGot([], s[i + 1..])
                               else PhpPrefixed([s[..i + 1]], PhpParagraph(s[i + 1..]))
  {
    var i := IndexOf(s, LF);
    if i != -1 {
      var line, rest := s[..i + 1], s[i + 1..];
      if !IsBlankLine(line) {
        assert Paragraph(s).Got? == Paragraph(rest).Got?;
      }
    }
  }

  /** One more line read by separator, after the lines read already. */
  lemma PhpParagraphGoesOn(lines: seq<bytes>, s: bytes)
    ensures PhpPrefixed(lines, PhpParagraph(s))
         == match TakeUntil(s, [LF])
            case Ended => PhpFailed(PhpEOF)
            case Piece(line, rest) =>
              if IsBlankLine(line) then PhpGot(lines, rest) else PhpPrefixed(lines + [line], PhpParagraph(rest))
    ensures TakeUntil(s, [LF]).Piece? ==> |TakeUntil(s, [LF]).rest| < |s|
  {
    PhpParagraphStep(s);
    LineBySeparator(s);
    assert lines + [] == lines;
    if TakeUntil(s, [LF]).Piece? {
      PhpPrefixedTwice(lines, TakeUntil(s, [LF]).piece, PhpParagraph(TakeUntil(s, [LF]).rest));
    }
  }

  /** Whether a method's result and what it left unread are those a function asks for. */
  ghost predicate Fits<T>(r: PhpResult<T>, value: T, error: Option<PhpError>, left: bytes) {
    match r
    case PhpGot(v, rest) => error == None && value == v && left == rest
    case PhpFailed(e) => error == Some(e)
  }

  class StreamReader {
    const byteReader: ByteStreamReader

    constructor (byteReader: ByteStreamReader)
      ensures this.byteReader == byteReader
    {
      this.byteReader := byteReader;
    }

    method ReadParagraph() returns (lines: seq<bytes>, error: Option<PhpError>)
      requires byteReader.Valid()
      modifies byteReader, byteReader.resource
      ensures byteReader.Valid()
      ensures Fits(PhpParagraph(old(byteReader.Contents())), lines, error, byteReader.Contents())
    {
      lines := [];
      ghost var start := byteReader.Contents();
      PhpPrefixedTwice([], [], PhpParagraph(start));
      while true
        invariant byteReader.Valid()
        invariant PhpParagraph(start) == PhpPrefixed(lines, PhpParagraph(byteReader.Contents()))
        decreases |byteReader.Contents()|
      {
        PhpParagraphGoesOn(lines, byteReader.Contents());
        var line := byteReader.ReadUntil([LF]);
        if line.None? {
          return lines, Some(PhpEOF);
        }
        if line.value == [LF] || line.value == [CR, LF] {
          return lines, None;
        }
        lines := lines + [line.value];
      }
    }

    method ReadNewline() returns (error: Option<PhpError>)
      requires byteReader.Valid()
      modifies byteReader, byteReader.resource
      ensures byteReader.Valid()
      ensures Fits(PhpNewline(old(byteReader.Contents())), [], error, byteReader.Contents())
    {
      ghost var s := byteReader.Contents();
      assert s[0..] == s;
      OneByte(s, 0);
      var sep := byteReader.ReadBytes(1);
      if sep.None? {
        return Some(PhpEOF);
      }
      if sep.value == [CR] {
        OneByte(s, 1);
        sep := byteReader.ReadBytes(1);
        if sep.None? {
          assert s == [CR];
          return Some(PhpEOF);
        }
      }
      return if sep.value == [LF] then None else Some(Unexpected);
    }

    method ReadLength(n: nat) returns (body: bytes, error: Option<PhpError>)
      requires byteReader.Valid()
      modifies byteReader, byteReader.resource
      ensures byteReader.Valid()
      ensures Fits(PhpSized(n, old(byteReader.Contents())), body, error, byteReader.Contents())
    {
      var counted := byteReader.ReadBytes(n);
      if counted.None? {
        return [], Some(PhpEOF);
      }
      error := ReadNewline();
      body := counted.value;
    }

    method Read(intval: bytes -> nat) returns (message: Message, error: Option<PhpError>)
      requires byteReader.Valid()
      modifies byteReader, byteReader.resource
      ensures byteReader.Valid()
      ensures Fits(PhpRead(old(byteReader.Contents()), intval), message, error, byteReader.Contents())
    {
      var lines, err := ReadParagraph();
      if err.Some? {
        return Message([], []), err;
      }
      var parsed := PhpParseHeaders(lines);
      if parsed.SomeBad? {
        return Message([], []), Some(InvalidHeader);
      }
      var body, length := [], PhpGet(parsed.headers, LENGTH_NAME);
      if length == "" {
        var paragraph, err' := ReadParagraph();
        body, err := Concat(paragraph), err';
      } else {
        body, err := ReadLength(intval(length));
      }
      return Message(parsed.headers, body), err;
    }
  }
}
