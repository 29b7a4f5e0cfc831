/**
 js/src/parseMessageFromBlob.ts: the chunked search for the end of the header block, and the parser of one blob.
 Header text is ASCII here, so that a byte is a character of `headerBlob.text()`.
 */
module JsBlob {
  import opened Bytes
  import opened Headers
  import opened Keys

  // ---------------------------------------------------------------- the end of the header block

  function LastBytes(s: bytes, n: nat): bytes {
    if |s| <= n then s else s[|s| - n..]
  }

  function WithoutCR(s: bytes): bytes {
    if s == [] then [] else WithoutCR(s[..|s| - 1]) + if s[|s| - 1] == CR then [] else [s[|s| - 1]]
  }

  predicate EndsWithDoubleLineBreak(blob: bytes) {
    LastBytes(WithoutCR(LastBytes(blob, 4)), 2) == [LF, LF]
  }

  /** A plain left-to-right scan from position `at`; `best` is the end of the last line seen so far. */
  function Scan(blob: bytes, at: nat, best: nat): (e: nat)
    requires best <= at <= |blob|
    ensures best <= e <= |blob|
    decreases |blob| - at
  {
    if at == |blob| then best
    else if blob[at] != LF then Scan(blob, at + 1, best)
    else if EndsWithDoubleLineBreak(blob[..at + 1]) then at + 1
    else Scan(blob, at + 1, at + 1)
  }

  lemma {:induction false} ScanSkips(blob: bytes, i: nat, j: nat, best: nat)
    requires best <= i <= j <= |blob|
    requires LF !in blob[i..j]
    ensures Scan(blob, i, best) == Scan(blob, j, best)
    decreases j - i
  {
    if i < j {
      assert blob[i..j][0] == blob[i];
      assert blob[i + 1..j] == blob[i..j][1..];
      ScanSkips(blob, i + 1, j, best);
    }
  }

  /** How far the search has come: `view` is the header block, or the lines before `at` and the scan goes on there. */
  predicate Progress(blob: bytes, at: nat, view: bytes, done: bool) {
    && |view| <= at <= |blob| && view == blob[..|view|]
    && Scan(blob, 0, 0) == if done then |view| else Scan(blob, at, |view|)
  }

  lemma ProgressSkips(blob: bytes, i: nat, j: nat, view: bytes)
    requires Progress(blob, i, view, false) && i <= j <= |blob| && LF !in blob[i..j]
    ensures Progress(blob, j, view, false)
  {
    ScanSkips(blob, i, j, |view|);
  }

  lemma ProgressAtLineFeed(blob: bytes, i: nat, at: nat, view: bytes, done: bool)
    requires Progress(blob, i, view, false) && i <= at < |blob| && blob[at] == LF && LF !in blob[i..at]
    requires done == EndsWithDoubleLineBreak(blob[..at + 1])
    ensures Progress(blob, at + 1, blob[..at + 1], done)
  {
    ProgressSkips(blob, i, at, view);
  }

  /** `bytes.indexOf(LineFeed, cursor)` in the chunk `blob[offset..end]`, as a position in the blob. */
  method FindLineFeed(blob: bytes, offset: nat, end: nat, cursor: nat) returns (at: int)
    requires offset + cursor <= end <= |blob|
    ensures at == -1 ==> LF !in blob[offset + cursor..end]
    ensures at != -1 ==> offset + cursor <= at < end && blob[at] == LF && LF !in blob[offset + cursor..at]
  {
    var chunk := blob[offset..end];
    var ahead := IndexOf(chunk[cursor..], LF);
    assert chunk[cursor..] == blob[offset + cursor..end];
    if ahead == -1 {
      return -1;
    }
    at := offset + cursor + ahead;
    assert chunk[cursor..][..ahead] == blob[offset + cursor..at];
  }

  /** A line feed is found: the view goes up to it, and the test decides whether it ends the block. */
  method TestLine(blob: bytes, i: nat, at: nat, view: bytes) returns (headerView: bytes, done: bool)
    requires Progress(blob, i, view, false) && i <= at < |blob| && blob[at] == LF && LF !in blob[i..at]
    ensures Progress(blob, at + 1, headerView, done)
  {
    headerView := blob[..at + 1];
    done := EndsWithDoubleLineBreak(headerView);
    ProgressAtLineFeed(blob, i, at, view, done);
  }

  /** The search within one chunk, `blob[offset..end]`. */
  method SearchChunk(blob: bytes, offset: nat, end: nat, view: bytes) returns (headerView: bytes, done: bool)
    requires offset <= end <= |blob| && Progress(blob, offset, view, false)
    ensures Progress(blob, end, headerView, done)
  {
    var cursor := 0;
    headerView, done := view, false;
    while !done
      invariant offset + cursor <= end && Progress(blob, offset + cursor, headerView, done)
      decreases end - offset - cursor, !done
    {
      var at := FindLineFeed(blob, offset, end, cursor);
      if at == -1 {
        ProgressSkips(blob, offset + cursor, end, headerView);
        break;
      }
      headerView, done := TestLine(blob, offset + cursor, at, headerView);
      cursor := at + 1 - offset;
    }
  }

  /**
   `extractHeadersFromBlob` for any chunk size: both loops terminate, and the chunk boundaries do not show in
   the result.
   */
  method ExtractHeaders(blob: bytes, chunkSize: nat) returns (headerView: bytes)
    requires chunkSize >= 1
    ensures headerView == blob[..Scan(blob, 0, 0)]
  {
    headerView := [];
    var offset, done := 0, false;
    while offset < |blob| && !done
      invariant Progress(blob, if offset <= |blob| then offset else |blob|, headerView, done)
      decreases |blob| - offset
    {
      var end := if offset + chunkSize <= |blob| then offset + chunkSize else |blob|;
      headerView, done := SearchChunk(blob, offset, end, headerView);
      offset := offset + chunkSize;
    }
  }

  /** The blob's first `e` bytes end a line. */
  predicate LineEnd(blob: bytes, e: nat) {
    0 < e <= |blob| && blob[e - 1] == LF
  }

  predicate BlockEnd(blob: bytes, e: nat) {
    LineEnd(blob, e) && EndsWithDoubleLineBreak(blob[..e])
  }

  /** The shortest prefix that ends the block; without one, everything through the last line feed. */
  ghost predicate IsHeaderEnd(blob: bytes, e: nat) {
    || (BlockEnd(blob, e) && forall f: nat | BlockEnd(blob, f) :: e <= f)
    || ((forall f: nat | f <= |blob| :: !BlockEnd(blob, f))
        && (if LF in blob then LineEnd(blob, e) && forall f: nat | LineEnd(blob, f) :: f <= e else e == 0))
  }

  lemma ScanExhausted(blob: bytes, best: nat)
    requires (best == 0 || LineEnd(blob, best)) && Passed(blob, |blob|, best)
    ensures IsHeaderEnd(blob, best)
  {
    if LF in blob {
      var i :| 0 <= i < |blob| && blob[i] == LF;
      assert LineEnd(blob, i + 1);
    }
  }

  lemma ScanFound(blob: bytes, at: nat, best: nat)
    requires at < |blob| && BlockEnd(blob, at + 1) && Passed(blob, at, best)
    ensures IsHeaderEnd(blob, at + 1)
  {
    forall f: nat | BlockEnd(blob, f) ensures at + 1 <= f {
      assert LineEnd(blob, f);
    }
  }

  lemma {:induction false} ScanMeaning(blob: bytes, at: nat, best: nat) returns (e: nat)
    requires best <= at <= |blob| && (best == 0 || LineEnd(blob, best)) && Passed(blob, at, best)
    ensures e == Scan(blob, at, best) && IsHeaderEnd(blob, e)
    decreases |blob| - at
  {
    ScanStep(blob, at, best);
    if at == |blob| {
      ScanExhausted(blob, best);
      e := best;
    } else if BlockEnd(blob, at + 1) {
      ScanFound(blob, at, best);
      e := at + 1;
    } else {
      PassedOn(blob, at, best);
      e := ScanMeaning(blob, at + 1, if LineEnd(blob, at + 1) then at + 1 else best);
    }
  }

  lemma ScanStep(blob: bytes, at: nat, best: nat)
    requires best <= at <= |blob|
    ensures Scan(blob, at, best) ==
            if at == |blob| then best
            else if BlockEnd(blob, at + 1) then at + 1
            else Scan(blob, at + 1, if LineEnd(blob, at + 1) then at + 1 else best)
  {
  }

  /** No line that ends up to `at` ends the block, and none ends behind `best`. */
  ghost predicate Passed(blob: bytes, at: nat, best: nat) {
    forall f: nat | LineEnd(blob, f) && f <= at :: f <= best && !BlockEnd(blob, f)
  }

  lemma PassedOn(blob: bytes, at: nat, best: nat)
    requires at < |blob| && best <= at && Passed(blob, at, best) && !BlockEnd(blob, at + 1)
    ensures Passed(blob, at + 1, if LineEnd(blob, at + 1) then at + 1 else best)
  {
    forall f: nat | LineEnd(blob, f) && f <= at + 1 ensures f == at + 1 || (f <= best && !BlockEnd(blob, f)) {
    }
  }

  /** What the scan finds, said without the scan; and nothing else fits that description. */
  lemma HeaderEndExactly(blob: bytes, e: nat)
    ensures IsHeaderEnd(blob, e) <==> e == Scan(blob, 0, 0)
  {
    var found := ScanMeaning(blob, 0, 0);
  }

  // ---------------------------------------------------------------- the parser

  /** A header object: assigning a key again replaces its value. */
  function HeaderObject(entries: seq<Header>): map<bytes, bytes> {
    if entries == [] then map[]
    else HeaderObject(entries[..|entries| - 1])[entries[|entries| - 1].name := entries[|entries| - 1].value]
  }

  /** Exactly the names that occur are keys, and the last header of a name gives its value. */
  lemma {:induction false} LastEntryWins(entries: seq<Header>, name: bytes)
    ensures name in HeaderObject(entries) <==> exists i :: 0 <= i < |entries| && entries[i].name == name
    ensures forall i | 0 <= i < |entries| && entries[i].name == name && (forall j | i < j < |entries| :: entries[j].name != name) ::
              name in HeaderObject(entries) && HeaderObject(entries)[name] == entries[i].value
  {
    if entries != [] {
      var front := entries[..|entries| - 1];
      LastEntryWins(front, name);
      assert forall i | 0 <= i < |front| :: front[i] == entries[i];
      if i :| 0 <= i < |front| && front[i].name == name {
        assert entries[i].name == name;
      }
    }
  }

  datatype Parsed = Entries(entries: seq<Header>) | Throw

  function DropLastCR(s: bytes): bytes {
    if s != [] && s[|s| - 1] == CR then s[..|s| - 1] else s
  }

  /** `split(/\r?\n/)` */
  function SplitLines(s: bytes): seq<bytes>
    decreases |s|
  {
    var i := IndexOf(s, LF);
    if i == -1 then [s] else [DropLastCR(s[..i])] + SplitLines(s[i + 1..])
  }

  function ParseLines(lines: seq<bytes>): Parsed {
    if lines == [] then Entries([])
    else
      var i := IndexOf(lines[0], COLON);
      if i == -1 then Throw
      else
        match ParseLines(lines[1..])
        case Throw => Throw
        case Entries(more) =>
          Entries([Header(CanonicalizeKey(lines[0][..i]), TrimLeft(IsSpace, lines[0][i + 1..]))] + more)
  }

  datatype JsResult = JsMessage(headers: map<bytes, bytes>, body: bytes) | Threw

  /** The bytes at `length` begin with a line feed, or with a carriage return and a line feed. */
  predicate NewlineAt(body: bytes, length: nat) {
    && length < |body|
    && (body[length] == LF || (body[length] == CR && length + 1 < |body| && body[length + 1] == LF))
  }

  /** `parseMessageFromBlob`, for a `parseInt` that yields a natural number. */
  function ParseBlob(blob: bytes, parseInt: bytes -> nat): JsResult {
    var e := Scan(blob, 0, 0);
    match ParseLines(SplitLines(Trim(IsSpace, blob[..e])))
    case Throw => Threw
    case Entries(entries) =>
      var headers, body := HeaderObject(entries), blob[e..];
      if LENGTH_NAME !in headers then JsMessage(headers, body)
      else
        var length := parseInt(headers[LENGTH_NAME]);
        if NewlineAt(body, length) then JsMessage(headers, body[..length]) else Threw
  }

  lemma SomeLineSomeEntry(lines: seq<bytes>)
    requires lines != []
    ensures ParseLines(lines).Throw? || ParseLines(lines).entries != []
  {
  }

  lemma SomeEntrySomeKey(entries: seq<Header>)
    requires entries != []
    ensures entries[|entries| - 1].name in HeaderObject(entries)
  {
  }

  /** No blob whatever parses as a message without headers: an empty header block still has one line, without a colon. */
  lemma NeverHeaderless(blob: bytes, parseInt: bytes -> nat)
    ensures ParseBlob(blob, parseInt).JsMessage? ==> ParseBlob(blob, parseInt).headers != map[]
  {
    var lines := SplitLines(Trim(IsSpace, blob[..Scan(blob, 0, 0)]));
    SomeLineSomeEntry(lines);
    if ParseLines(lines).Entries? {
      SomeEntrySomeKey(ParseLines(lines).entries);
    }
  }
}
