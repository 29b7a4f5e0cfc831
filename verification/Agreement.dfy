/**
 The Go, PHP and JavaScript readers on the same printed message. They trim, split and canonicalise differently, so
 they agree on portable messages: counted bodies, consistent names canonical in all three, values none of them trims.
 */
module Agreement {
  import opened Bytes
  import opened Headers
  import opened Keys
  import opened WireCodec
  import J = JsBlob
  import P = PhpStream

  predicate PortableHeader(h: Header) {
    && Canonical(h.name) == h.name && CanonicalizeKey(h.name) == h.name
    && COLON !in h.name && Tight(P.IsPhpBlank, h.name)
    && LF !in h.value && Tight(IsSpace, h.value) && (h.value == [] || !P.IsPhpBlank(h.value[|h.value| - 1]))
  }

  /** Headers with the same name have the same value. */
  predicate Consistent(hs: seq<Header>) {
    forall i, j | 0 <= i < j < |hs| :: hs[i].name == hs[j].name ==> hs[i].value == hs[j].value
  }

  predicate PortableHeaders(hs: seq<Header>) {
    && (forall i | 0 <= i < |hs| :: PortableHeader(hs[i]))
    && Consistent(hs)
  }

  predicate Portable(m: Message) {
    && m.headers != [] && PortableHeaders(m.headers)
    && LengthOf(m.headers) == Decimal(|m.body|) && |m.body| < TWO_64
  }

  lemma PortableNameClean(h: Header)
    requires PortableHeader(h)
    ensures forall c | c in h.name :: !IsSpace(c)
    ensures GoodHeader(h)
  {
    CanonicalKeysHaveNoSpace(h.name);
    assert h.name != [] ==> h.name[0] in h.name && h.name[|h.name| - 1] in h.name;
  }

  lemma PortableIsWellFormed(m: Message)
    requires Portable(m)
    ensures WellFormed(m)
  {
    forall h | h in m.headers ensures GoodHeader(h) {
      var i :| 0 <= i < |m.headers| && m.headers[i] == h;
      PortableNameClean(m.headers[i]);
    }
    DecimalRoundTrip(|m.body|);
  }

  lemma DigitsArePlain(digits: bytes)
    requires forall c | c in digits :: IsDigit(c)
    ensures LF !in digits && Tight(IsSpace, digits) && Tight(P.IsPhpBlank, digits)
  {
    if digits != [] {
      assert IsDigit(digits[0]) && IsDigit(digits[|digits| - 1]);
    }
  }

  lemma LengthNamePlain()
    ensures COLON !in LENGTH_NAME && Tight(P.IsPhpBlank, LENGTH_NAME)
  {
  }

  lemma LengthHeaderPortable(digits: bytes)
    requires forall c | c in digits :: IsDigit(c)
    ensures PortableHeader(Header(LENGTH_NAME, digits))
  {
    DigitsArePlain(digits);
    LengthNameIsCanonical();
    LengthNameCanonical();
    LengthNamePlain();
  }

  lemma OneHeaderPortable(h: Header)
    requires PortableHeader(h)
    ensures PortableHeaders([h]) && Get([h], h.name) == h.value
  {
  }

  /** A counted body alone makes a portable message, whatever its bytes. */
  lemma CountedBodyIsPortable(body: bytes, h: Header)
    requires |body| < TWO_64 && h.name == LENGTH_NAME && h.value == Decimal(|body|)
    ensures Portable(Message([h], body))
  {
    LengthHeaderPortable(h.value);
    OneHeaderPortable(h);
  }

  // ---------------------------------------------------------------- PHP

  function BareLine(h: Header): bytes {
    h.name + ": " + h.value
  }

  /** A line that `trim` has been over: without a value it loses the space after its colon too. */
  function TightLine(h: Header): bytes {
    if h.value == [] then h.name + ":" else BareLine(h)
  }

  lemma TightLineEnds(h: Header)
    ensures TightLine(h) != [] && TightLine(h)[0] == if h.name == [] then COLON else h.name[0]
    ensures TightLine(h)[|TightLine(h)| - 1] == if h.value == [] then COLON else h.value[|h.value| - 1]
  {
  }

  lemma PhpTrimsLine(h: Header)
    requires PortableHeader(h)
    ensures Trim(P.IsPhpBlank, HeaderLine(h)) == TightLine(h)
  {
    TightLineEnds(h);
    TightLinePadded(h);
    TrimAfter(P.IsPhpBlank, TightLine(h), Padding(h));
  }

  function Padding(h: Header): (pad: bytes)
    ensures AllBlank(P.IsPhpBlank, pad)
  {
    if h.value == [] then [' ', LF] else [LF]
  }

  lemma TightLinePadded(h: Header)
    ensures HeaderLine(h) == TightLine(h) + Padding(h)
  {
  }

  lemma PhpHeaderRoundTrip(h: Header)
    requires PortableHeader(h)
    ensures P.PhpParseHeader(HeaderLine(h)) == Parsed(h)
  {
    PhpTrimsLine(h);
    var t := TightLine(h);
    var after := if h.value == [] then [] else " " + h.value;
    assert t == h.name + [COLON] + after;
    CutAtFirst(t, h.name, COLON, after);
    TrimNothing(P.IsPhpBlank, h.name);
    TrimLeftSkips(IsSpace, " ", h.value);
  }

  predicate PhpReads(h: Header) {
    P.PhpParseHeader(HeaderLine(h)) == Parsed(h)
  }

  predicate PhpGives(line: bytes, h: Header) {
    P.PhpParseHeader(line) == Parsed(h)
  }

  lemma {:induction false} PhpParseEach(lines: seq<bytes>, hs: seq<Header>)
    requires |lines| == |hs| && forall i | 0 <= i < |hs| :: PhpGives(lines[i], hs[i])
    ensures P.PhpParseHeaders(lines) == AllParsed(hs)
  {
    if hs != [] {
      var more, rest := lines[1..], hs[1..];
      assert PhpGives(lines[0], hs[0]);
      PhpParseEach(more, rest);
      assert hs == [hs[0]] + rest;
    }
  }

  lemma PhpHeadersRoundTrip(hs: seq<Header>)
    requires forall i | 0 <= i < |hs| :: PortableHeader(hs[i])
    ensures P.PhpParseHeaders(HeaderLines(hs)) == AllParsed(hs)
  {
    var lines := HeaderLines(hs);
    HeaderLinesAt(hs);
    forall i | 0 <= i < |hs| ensures PhpGives(lines[i], hs[i]) {
      PhpHeaderRoundTrip(hs[i]);
    }
    PhpParseEach(lines, hs);
  }

  lemma {:induction false} PhpGetIsGet(hs: seq<Header>, name: bytes)
    requires Canonical(name) == name
    ensures P.PhpGet(hs, name) == Get(hs, name)
  {
    if hs != [] {
      PhpGetIsGet(hs[1..], name);
    }
  }

  lemma PhpSizedRoundTrip(body: bytes, tail: bytes)
    ensures P.PhpSized(|body|, body + [LF] + tail) == P.PhpGot(body, tail)
  {
    var s, newline := body + [LF] + tail, [LF] + tail;
    assert s[..|body|] == body && s[|body|..] == newline && newline[1..] == tail;
    assert newline[0] != [CR][0];
  }

  lemma LengthRead(hs: seq<Header>)
    ensures P.PhpGet(hs, LENGTH_NAME) == LengthOf(hs)
  {
    ProtocolNamesCanonical();
    PhpGetIsGet(hs, LENGTH_NAME);
  }

  lemma PhpBodyRoundTrip(m: Message, tail: bytes, intval: bytes -> nat)
    requires Portable(m) && intval(Decimal(|m.body|)) == |m.body|
    ensures P.PhpBody(m.headers, m.body + [LF] + tail, intval) == P.PhpGot(m.body, tail)
  {
    LengthRead(m.headers);
    PhpSizedRoundTrip(m.body, tail);
  }

  lemma PhpAgrees(m: Message, tail: bytes, intval: bytes -> nat)
    requires Portable(m) && intval(Decimal(|m.body|)) == |m.body|
    ensures P.PhpRead(Print(m) + tail, intval) == P.PhpGot(m, tail)
  {
    var s := m.body + [LF] + tail;
    PortableIsWellFormed(m);
    PrintedBehind(m, tail);
    HeaderLinesRead(m.headers, s);
    PhpHeadersRoundTrip(m.headers);
    PhpBodyRoundTrip(m, tail, intval);
    PhpReadsParts(Print(m) + tail, HeaderLines(m.headers), s, m, tail, intval);
  }

  lemma PhpReadsParts(s: bytes, lines: seq<bytes>, rest: bytes, m: Message, tail: bytes, intval: bytes -> nat)
    requires Paragraph(s) == Got(lines, rest) && P.PhpParseHeaders(lines) == AllParsed(m.headers)
    requires P.PhpBody(m.headers, rest, intval) == P.PhpGot(m.body, tail)
    ensures P.PhpRead(s, intval) == P.PhpGot(m, tail)
  {
  }

  // ---------------------------------------------------------------- JavaScript: where the header block ends

  /** Every line ends in a byte that is neither a line feed nor a carriage return. */
  predicate CleanBreaks(s: bytes) {
    forall e | 0 <= e < |s| && s[e] == LF :: e > 0 && s[e - 1] != LF && s[e - 1] != CR
  }

  lemma CleanHeaderLine(h: Header)
    requires GoodHeader(h)
    ensures CleanBreaks(HeaderLine(h))
  {
    var line := HeaderLine(h);
    var n := |line| - 1;
    assert line[..n] == h.name + ": " + h.value;
    assert forall e | 0 <= e < n :: line[e] == line[..n][e];
    assert line[n - 1] == if h.value == [] then ' ' else h.value[|h.value| - 1];
  }

  lemma CleanConcat(a: bytes, b: bytes)
    requires CleanBreaks(a) && CleanBreaks(b)
    ensures CleanBreaks(a + b)
  {
    forall e | 0 <= e < |a + b| && (a + b)[e] == LF
      ensures e > 0 && (a + b)[e - 1] != LF && (a + b)[e - 1] != CR
    {
      if e >= |a| {
        assert b[e - |a|] == LF;
      } else {
        assert a[e] == LF;
      }
    }
  }

  lemma {:induction false} CleanHeaders(hs: seq<Header>)
    requires GoodHeaders(hs)
    ensures CleanBreaks(PrintHeaders(hs))
    ensures hs != [] ==> PrintHeaders(hs) != [] && PrintHeaders(hs)[|PrintHeaders(hs)| - 1] == LF
  {
    if hs != [] {
      CleanHeaders(hs[1..]);
      CleanHeaderLine(hs[0]);
      CleanConcat(HeaderLine(hs[0]), PrintHeaders(hs[1..]));
      assert |hs| == 1 ==> PrintHeaders(hs[1..]) == [];
    }
  }

  lemma WithoutCRAppend(s: bytes, c: byte)
    requires c != CR
    ensures J.WithoutCR(s + [c]) == J.WithoutCR(s) + [c]
  {
    assert (s + [c])[..|s|] == s;
  }

  lemma LastOfThree(x: bytes, c: byte, d: byte)
    ensures J.LastBytes(x + [c] + [d], 2) == [c, d]
  {
  }

  lemma WithoutCREnd(front: bytes, c: byte)
    requires c != CR
    ensures J.LastBytes(J.WithoutCR(front + [c] + [LF]), 2) == [c, LF]
  {
    WithoutCRAppend(front, c);
    WithoutCRAppend(front + [c], LF);
    LastOfThree(J.WithoutCR(front), c, LF);
  }

  lemma LastTwo(s: bytes, n: nat)
    requires 2 <= |s| && 2 <= n
    ensures var last := J.LastBytes(s, n);
            |last| >= 2 && last[|last| - 1] == s[|s| - 1] && last[|last| - 2] == s[|s| - 2]
            && last[|last| - 2..] == [s[|s| - 2], s[|s| - 1]]
  {
  }

  /** Next to a byte other than a carriage return, the test looks at the last two bytes only. */
  lemma DoubleBreakTest(s: bytes)
    requires |s| >= 2 && s[|s| - 1] == LF && s[|s| - 2] != CR
    ensures J.EndsWithDoubleLineBreak(s) <==> s[|s| - 2] == LF
  {
    LastTwo(s, 4);
    var last, c := J.LastBytes(s, 4), s[|s| - 2];
    TwoAtEnd(last);
    WithoutCREnd(last[..|last| - 2], c);
    assert J.EndsWithDoubleLineBreak(s) == ([c, LF] == [LF, LF]);
    assert [c, LF][0] == c && [LF, LF][0] == LF;
  }

  lemma TwoAtEnd(s: bytes)
    requires |s| >= 2
    ensures s == s[..|s| - 2] + [s[|s| - 2]] + [s[|s| - 1]]
  {
  }

  /** The scan stops right after the blank line, provided there is a header before it. */
  lemma HeaderBlockFound(hs: seq<Header>, rest: bytes)
    requires hs != [] && GoodHeaders(hs)
    ensures J.Scan(PrintHeaders(hs) + [LF] + rest, 0, 0) == |PrintHeaders(hs)| + 1
  {
    var text := PrintHeaders(hs);
    var blob, n := text + [LF] + rest, |text|;
    CleanHeaders(hs);
    assert blob[..n + 1] == text + [LF];
    DoubleBreakTest(blob[..n + 1]);
    assert J.BlockEnd(blob, n + 1);
    forall f: nat | J.BlockEnd(blob, f) ensures n + 1 <= f {
      if f <= n {
        assert blob[f - 1] == text[f - 1] == LF;
        assert blob[..f] == text[..f];
        DoubleBreakTest(text[..f]);
      }
    }
    J.HeaderEndExactly(blob, n + 1);
  }

  // ---------------------------------------------------------------- JavaScript: the header lines

  /** The header block after `trim()`. */
  function TrimmedBlock(hs: seq<Header>): bytes
    requires hs != []
  {
    if |hs| == 1 then TightLine(hs[0]) else BareLine(hs[0]) + [LF] + TrimmedBlock(hs[1..])
  }

  function LastPadding(hs: seq<Header>): (pad: bytes)
    requires hs != []
    ensures AllBlank(IsSpace, pad)
  {
    if hs[|hs| - 1].value == [] then [' ', LF, LF] else [LF, LF]
  }

  lemma {:induction false} BlockIsPadded(hs: seq<Header>)
    requires hs != []
    ensures PrintHeaders(hs) + [LF] == TrimmedBlock(hs) + LastPadding(hs)
  {
    if |hs| == 1 {
      assert PrintHeaders(hs) == HeaderLine(hs[0]) + [];
      assert HeaderLine(hs[0]) + [LF] == TightLine(hs[0]) + LastPadding(hs);
    } else {
      BlockIsPadded(hs[1..]);
      var line, rest, block, pad := BareLine(hs[0]) + [LF], PrintHeaders(hs[1..]), TrimmedBlock(hs[1..]), LastPadding(hs);
      assert PrintHeaders(hs) + [LF] == line + (rest + [LF]);
      assert TrimmedBlock(hs) + pad == line + (block + pad);
    }
  }

  lemma {:induction false} TrimmedBlockTight(hs: seq<Header>)
    requires hs != [] && forall i | 0 <= i < |hs| :: PortableHeader(hs[i])
    ensures TrimmedBlock(hs) != [] && Tight(IsSpace, TrimmedBlock(hs))
  {
    PortableNameClean(hs[0]);
    TightLineEnds(hs[0]);
    if |hs| > 1 {
      TrimmedBlockTight(hs[1..]);
      assert BareLine(hs[0])[0] == TightLine(hs[0])[0];
    }
  }

  lemma BlockTrims(hs: seq<Header>)
    requires hs != [] && forall i | 0 <= i < |hs| :: PortableHeader(hs[i])
    ensures Trim(IsSpace, PrintHeaders(hs) + [LF]) == TrimmedBlock(hs)
  {
    BlockIsPadded(hs);
    TrimmedBlockTight(hs);
    TrimAfter(IsSpace, TrimmedBlock(hs), LastPadding(hs));
  }

  lemma JsLineUnbroken(h: Header, line: bytes)
    requires PortableHeader(h) && (line == BareLine(h) || line == TightLine(h))
    ensures LF !in line && (line != [] ==> line[|line| - 1] != CR)
  {
    PortableNameClean(h);
  }

  lemma LineParts(h: Header, line: bytes, after: bytes)
    requires line == BareLine(h) || line == TightLine(h)
    requires after == if line == BareLine(h) then " " + h.value else []
    ensures line == h.name + [COLON] + after && (after == [] ==> h.value == [])
  {
  }

  lemma JsParseFirst(line: bytes, i: nat, more: seq<bytes>)
    requires IndexOf(line, COLON) == i && J.ParseLines(more).Entries?
    ensures J.ParseLines([line] + more)
         == J.Entries([Header(CanonicalizeKey(line[..i]), TrimLeft(IsSpace, line[i + 1..]))] + J.ParseLines(more).entries)
  {
    assert ([line] + more)[1..] == more;
  }

  lemma SplitFirst(line: bytes, rest: bytes)
    requires LF !in line && (line != [] ==> line[|line| - 1] != CR)
    ensures J.SplitLines(line + [LF] + rest) == [line] + J.SplitLines(rest)
    ensures J.SplitLines(line) == [line]
  {
    CutAtFirst(line + [LF] + rest, line, LF, rest);
  }

  /** One line to JavaScript. */
  predicate Unbroken(line: bytes) {
    LF !in line && (line != [] ==> line[|line| - 1] != CR)
  }

  predicate JsGives(line: bytes, h: Header) {
    var i := IndexOf(line, COLON);
    i != -1 && Header(CanonicalizeKey(line[..i]), TrimLeft(IsSpace, line[i + 1..])) == h
  }

  /** The lines of a trimmed block. */
  function BlockLines(hs: seq<Header>): (lines: seq<bytes>)
    requires hs != []
    ensures |lines| == |hs|
    ensures forall i | 0 <= i < |hs| :: lines[i] == BareLine(hs[i]) || lines[i] == TightLine(hs[i])
  {
    if |hs| == 1 then [TightLine(hs[0])] else [BareLine(hs[0])] + BlockLines(hs[1..])
  }

  lemma PortableGives(h: Header, line: bytes)
    requires PortableHeader(h) && (line == BareLine(h) || line == TightLine(h))
    ensures Unbroken(line) && JsGives(line, h)
  {
    var after := if line == BareLine(h) then " " + h.value else [];
    JsLineUnbroken(h, line);
    LineParts(h, line, after);
    PortableNameClean(h);
    CutAtFirst(line, h.name, COLON, after);
    TrimLeftSkips(IsSpace, " ", h.value);
  }

  lemma PortableLines(hs: seq<Header>)
    requires hs != [] && forall i | 0 <= i < |hs| :: PortableHeader(hs[i])
    ensures forall i | 0 <= i < |hs| :: Unbroken(BlockLines(hs)[i]) && JsGives(BlockLines(hs)[i], hs[i])
  {
    forall i | 0 <= i < |hs| ensures Unbroken(BlockLines(hs)[i]) && JsGives(BlockLines(hs)[i], hs[i]) {
      PortableGives(hs[i], BlockLines(hs)[i]);
    }
  }

  lemma JsOneMore(line: bytes, h: Header, more: seq<bytes>, es: seq<Header>)
    requires JsGives(line, h) && J.ParseLines(more) == J.Entries(es)
    ensures J.ParseLines([line] + more) == J.Entries([h] + es)
  {
    JsParseFirst(line, IndexOf(line, COLON), more);
  }

  lemma {:induction false} JsParseEach(lines: seq<bytes>, hs: seq<Header>)
    requires |lines| == |hs| && forall i | 0 <= i < |hs| :: JsGives(lines[i], hs[i])
    ensures J.ParseLines(lines) == J.Entries(hs)
  {
    if hs != [] {
      var more, rest := lines[1..], hs[1..];
      JsParseEach(more, rest);
      JsOneMore(lines[0], hs[0], more, rest);
      assert lines == [lines[0]] + more && hs == [hs[0]] + rest;
    }
  }

  lemma {:induction false} BlockSplits(hs: seq<Header>)
    requires hs != [] && forall i | 0 <= i < |hs| :: Unbroken(BlockLines(hs)[i])
    ensures J.SplitLines(TrimmedBlock(hs)) == BlockLines(hs)
  {
    var lines := BlockLines(hs);
    assert Unbroken(lines[0]);
    if |hs| == 1 {
      SplitFirst(lines[0], []);
    } else {
      assert forall i | 0 <= i < |hs| - 1 :: BlockLines(hs[1..])[i] == lines[i + 1];
      BlockSplits(hs[1..]);
      SplitFirst(lines[0], TrimmedBlock(hs[1..]));
    }
  }

  lemma JsBlockRoundTrip(hs: seq<Header>)
    requires hs != [] && forall i | 0 <= i < |hs| :: PortableHeader(hs[i])
    ensures J.ParseLines(J.SplitLines(TrimmedBlock(hs))) == J.Entries(hs)
  {
    PortableLines(hs);
    BlockSplits(hs);
    JsParseEach(BlockLines(hs), hs);
  }

  lemma {:induction false} ObjectHasHeaders(hs: seq<Header>, i: nat)
    requires i < |hs| && Consistent(hs)
    ensures hs[i].name in J.HeaderObject(hs) && J.HeaderObject(hs)[hs[i].name] == hs[i].value
    decreases |hs|
  {
    if i < |hs| - 1 {
      ObjectHasHeaders(hs[..|hs| - 1], i);
    }
  }

  lemma {:induction false} ObjectHasOnlyHeaders(hs: seq<Header>, name: bytes)
    requires name in J.HeaderObject(hs)
    ensures exists i :: 0 <= i < |hs| && hs[i].name == name
    decreases |hs|
  {
    if hs[|hs| - 1].name != name {
      var front := hs[..|hs| - 1];
      ObjectHasOnlyHeaders(front, name);
      var i :| 0 <= i < |front| && front[i].name == name;
      assert hs[i].name == name;
    }
  }

  lemma {:induction false} GetFinds(hs: seq<Header>, name: bytes) returns (i: nat)
    requires Get(hs, name) != ""
    ensures i < |hs| && hs[i] == Header(Canonical(name), Get(hs, name))
  {
    if Matches(hs[0], name) {
      i := 0;
    } else {
      i := GetFinds(hs[1..], name);
      i := i + 1;
    }
  }

  /** With consistent headers the header object holds exactly what the list holds. */
  lemma ObjectIsTheList(hs: seq<Header>)
    requires Consistent(hs)
    ensures forall name, value ::
              (name in J.HeaderObject(hs) && J.HeaderObject(hs)[name] == value) <==> Header(name, value) in hs
  {
    forall name, value
      ensures (name in J.HeaderObject(hs) && J.HeaderObject(hs)[name] == value) <==> Header(name, value) in hs
    {
      if name in J.HeaderObject(hs) {
        ObjectHasOnlyHeaders(hs, name);
        var i :| 0 <= i < |hs| && hs[i].name == name;
        ObjectHasHeaders(hs, i);
        assert hs[i] in hs;
        if Header(name, value) in hs {
          var k :| 0 <= k < |hs| && hs[k] == Header(name, value);
          ObjectHasHeaders(hs, k);
        }
      } else if Header(name, value) in hs {
        var k :| 0 <= k < |hs| && hs[k] == Header(name, value);
        ObjectHasHeaders(hs, k);
      }
    }
  }

  lemma JsHeaders(m: Message)
    requires m.headers != [] && PortableHeaders(m.headers)
    ensures var e := J.Scan(Print(m), 0, 0);
            && Print(m)[e..] == m.body + [LF]
            && J.ParseLines(J.SplitLines(Trim(IsSpace, Print(m)[..e]))) == J.Entries(m.headers)
  {
    var text := PrintHeaders(m.headers);
    forall h | h in m.headers ensures GoodHeader(h) {
      var i :| 0 <= i < |m.headers| && m.headers[i] == h;
      PortableNameClean(m.headers[i]);
    }
    assert Print(m) == text + [LF] + (m.body + [LF]);
    HeaderBlockFound(m.headers, m.body + [LF]);
    assert Print(m)[..|text| + 1] == text + [LF] && Print(m)[|text| + 1..] == m.body + [LF];
    BlockTrims(m.headers);
    JsBlockRoundTrip(m.headers);
  }

  lemma JsAgrees(m: Message, parseInt: bytes -> nat)
    requires Portable(m) && parseInt(Decimal(|m.body|)) == |m.body|
    ensures J.ParseBlob(Print(m), parseInt) == J.JsMessage(J.HeaderObject(m.headers), m.body)
  {
    JsHeaders(m);
    ProtocolNamesCanonical();
    var i := GetFinds(m.headers, LENGTH_NAME);
    ObjectHasHeaders(m.headers, i);
    assert (m.body + [LF])[..|m.body|] == m.body;
  }

  /** Of messages with portable headers and a counted body, JavaScript reads back exactly those that have a header. */
  lemma JsNeedsHeader(m: Message, parseInt: bytes -> nat)
    requires PortableHeaders(m.headers) && parseInt(Decimal(|m.body|)) == |m.body| < TWO_64
    requires m.headers != [] ==> LengthOf(m.headers) == Decimal(|m.body|)
    ensures J.ParseBlob(Print(m), parseInt) == J.JsMessage(J.HeaderObject(m.headers), m.body) <==> m.headers != []
  {
    if m.headers != [] {
      JsAgrees(m, parseInt);
    } else {
      J.NeverHeaderless(Print(m), parseInt);
    }
  }

  /** Without a length the JavaScript parser takes the terminating newline for part of the body. */
  lemma JsKeepsNewline(m: Message, parseInt: bytes -> nat)
    requires m.headers != [] && PortableHeaders(m.headers)
    requires forall h | h in m.headers :: h.name != LENGTH_NAME
    ensures J.ParseBlob(Print(m), parseInt) == J.JsMessage(J.HeaderObject(m.headers), m.body + [LF])
  {
    JsHeaders(m);
    assert forall i | 0 <= i < |m.headers| :: m.headers[i].name != LENGTH_NAME;
    if LENGTH_NAME in J.HeaderObject(m.headers) {
      ObjectHasOnlyHeaders(m.headers, LENGTH_NAME);
    }
  }

  predicate HasLength(hs: seq<Header>) {
    exists i :: 0 <= i < |hs| && hs[i].name == LENGTH_NAME
  }

  lemma {:induction false} GetAgreed(hs: seq<Header>, name: bytes, value: bytes)
    requires Canonical(name) == name && exists i :: 0 <= i < |hs| && hs[i].name == name
    requires forall i | 0 <= i < |hs| && hs[i].name == name :: hs[i].value == value
    ensures Get(hs, name) == value
  {
    if hs[0].name != name {
      var i :| 0 <= i < |hs| && hs[i].name == name;
      assert hs[1..][i - 1].name == name;
      GetAgreed(hs[1..], name, value);
    }
  }

  /** Under either framing, JavaScript returns the headers of a printed message, and its body exactly if a length is given. */
  lemma JsBodyExactly(m: Message, parseInt: bytes -> nat)
    requires m.headers != [] && PortableHeaders(m.headers) && parseInt(Decimal(|m.body|)) == |m.body| < TWO_64
    requires forall i | 0 <= i < |m.headers| && m.headers[i].name == LENGTH_NAME :: m.headers[i].value == Decimal(|m.body|)
    ensures var r := J.ParseBlob(Print(m), parseInt);
            r.JsMessage? && r.headers == J.HeaderObject(m.headers) && (r.body == m.body <==> HasLength(m.headers))
  {
    if HasLength(m.headers) {
      LengthNameCanonical();
      GetAgreed(m.headers, LENGTH_NAME, Decimal(|m.body|));
      JsAgrees(m, parseInt);
    } else {
      JsKeepsNewline(m, parseInt);
    }
  }

  /**
   All three readers return the message that was printed. `tail` is whatever the stream goes on with;
   a blob holds one message.
   */
  lemma ReadersAgree(m: Message, tail: bytes, intval: bytes -> nat, parseInt: bytes -> nat)
    requires Portable(m)
    requires intval(Decimal(|m.body|)) == |m.body| && parseInt(Decimal(|m.body|)) == |m.body|
    ensures ReadMessage(Print(m) + tail) == Got(m, tail)
    ensures P.PhpRead(Print(m) + tail, intval) == P.PhpGot(m, tail)
    ensures J.ParseBlob(Print(m), parseInt).JsMessage?
    ensures J.ParseBlob(Print(m), parseInt).body == m.body
    ensures forall name, value ::
              (name in J.ParseBlob(Print(m), parseInt).headers && J.ParseBlob(Print(m), parseInt).headers[name] == value)
              <==> Header(name, value) in m.headers
  {
    PortableIsWellFormed(m);
    RoundTrip(m, tail);
    PhpAgrees(m, tail, intval);
    JsAgrees(m, parseInt);
    ObjectIsTheList(m.headers);
  }
}
