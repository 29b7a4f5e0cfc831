/**
 What the JavaScript parser makes of blobs that the printers do not write (js/src/parseMessageFromBlob.ts): which endings
 pass for a double line break, lines that end in a carriage return and a line feed, bodies that do not fit their length.
 */
module JsReading {
  import opened Bytes
  import opened Headers
  import opened Keys
  import opened WireCodec
  import opened Agreement
  import opened Reading
  import J = JsBlob

  // ---------------------------------------------------------------- the double line break

  predicate EndsIn(s: bytes, ending: bytes) {
    |ending| <= |s| && s[|s| - |ending|..] == ending
  }

  /** Two line feeds with at most two carriage returns between or behind them. */
  predicate EndsInBreak(s: bytes) {
    || EndsIn(s, [LF, LF]) || EndsIn(s, [LF, CR, LF]) || EndsIn(s, [LF, CR, CR, LF])
    || EndsIn(s, [LF, LF, CR]) || EndsIn(s, [LF, CR, LF, CR]) || EndsIn(s, [LF, LF, CR, CR])
  }

  /** Without its carriage returns: nothing, or what is before the last byte and perhaps that byte. */
  lemma WithoutCRLast(front: bytes, c: byte)
    ensures J.WithoutCR(front + [c]) == J.WithoutCR(front) + if c == CR then [] else [c]
  {
    assert (front + [c])[..|front|] == front;
  }

  lemma WithoutCRFour(a: bytes, b: bytes, c: bytes, d: bytes)
    requires |a| <= 1 && |b| <= 1 && |c| <= 1 && |d| <= 1
    ensures J.WithoutCR(a + b + c + d) == Kept(a) + Kept(b) + Kept(c) + Kept(d)
  {
    WithoutCROne([], a);
    WithoutCROne(a, b);
    WithoutCROne(a + b, c);
    WithoutCROne(a + b + c, d);
    assert [] + a == a && [] + Kept(a) == Kept(a);
  }

  function Kept(s: bytes): bytes {
    if s == [CR] then [] else s
  }

  lemma WithoutCROne(front: bytes, s: bytes)
    requires |s| <= 1
    ensures J.WithoutCR(front + s) == J.WithoutCR(front) + Kept(s)
  {
    if s == [] {
      assert front + s == front && J.WithoutCR(front) + [] == J.WithoutCR(front);
    } else {
      WithoutCRLast(front, s[0]);
      assert s == [s[0]];
    }
  }

  /** The last four bytes, one by one; those that are not there are empty. */
  function At(s: bytes, back: nat): bytes {
    if back <= |s| && back > 0 then [s[|s| - back]] else []
  }

  lemma LastFour(s: bytes)
    ensures J.LastBytes(s, 4) == At(s, 4) + At(s, 3) + At(s, 2) + At(s, 1)
  {
  }

  lemma TestByBytes(s: bytes)
    ensures J.EndsWithDoubleLineBreak(s)
       <==> J.LastBytes(Kept(At(s, 4)) + Kept(At(s, 3)) + Kept(At(s, 2)) + Kept(At(s, 1)), 2) == [LF, LF]
  {
    LastFour(s);
    WithoutCRFour(At(s, 4), At(s, 3), At(s, 2), At(s, 1));
  }

  lemma EndingByBytes(s: bytes)
    ensures EndsInBreak(s)
       <==> J.LastBytes(Kept(At(s, 4)) + Kept(At(s, 3)) + Kept(At(s, 2)) + Kept(At(s, 1)), 2) == [LF, LF]
  {
    var w, x, y, z := At(s, 4), At(s, 3), At(s, 2), At(s, 1);
    EndingsByBytes(s);
    LastTwoKept(w, x, y, z, |s|);
  }

  lemma EndingTwo(s: bytes, a: byte, b: byte)
    ensures EndsIn(s, [a, b]) <==> At(s, 2) == [a] && At(s, 1) == [b]
  {
    if |s| >= 2 {
      assert s[|s| - 2..] == [s[|s| - 2], s[|s| - 1]];
    }
  }

  lemma EndingThree(s: bytes, a: byte, b: byte, c: byte)
    ensures EndsIn(s, [a, b, c]) <==> At(s, 3) == [a] && At(s, 2) == [b] && At(s, 1) == [c]
  {
    if |s| >= 3 {
      assert s[|s| - 3..] == [s[|s| - 3], s[|s| - 2], s[|s| - 1]];
    }
  }

  lemma EndingFour(s: bytes, a: byte, b: byte, c: byte, d: byte)
    ensures EndsIn(s, [a, b, c, d]) <==> At(s, 4) == [a] && At(s, 3) == [b] && At(s, 2) == [c] && At(s, 1) == [d]
  {
    if |s| >= 4 {
      assert s[|s| - 4..] == [s[|s| - 4], s[|s| - 3], s[|s| - 2], s[|s| - 1]];
    }
  }

  lemma EndingsByBytes(s: bytes)
    ensures EndsIn(s, [LF, LF]) <==> At(s, 2) == [LF] && At(s, 1) == [LF]
    ensures EndsIn(s, [LF, CR, LF]) <==> At(s, 3) == [LF] && At(s, 2) == [CR] && At(s, 1) == [LF]
    ensures EndsIn(s, [LF, CR, CR, LF]) <==> At(s, 4) == [LF] && At(s, 3) == [CR] && At(s, 2) == [CR] && At(s, 1) == [LF]
    ensures EndsIn(s, [LF, LF, CR]) <==> At(s, 3) == [LF] && At(s, 2) == [LF] && At(s, 1) == [CR]
    ensures EndsIn(s, [LF, CR, LF, CR]) <==> At(s, 4) == [LF] && At(s, 3) == [CR] && At(s, 2) == [LF] && At(s, 1) == [CR]
    ensures EndsIn(s, [LF, LF, CR, CR]) <==> At(s, 4) == [LF] && At(s, 3) == [LF] && At(s, 2) == [CR] && At(s, 1) == [CR]
  {
    EndingTwo(s, LF, LF);
    EndingThree(s, LF, CR, LF);
    EndingFour(s, LF, CR, CR, LF);
    EndingThree(s, LF, LF, CR);
    EndingFour(s, LF, CR, LF, CR);
    EndingFour(s, LF, LF, CR, CR);
  }

  /** Two kept line feeds last, said of the four bytes. */
  lemma LastTwoKept(w: bytes, x: bytes, y: bytes, z: bytes, n: nat)
    requires |w| == (if n >= 4 then 1 else 0) && |x| == (if n >= 3 then 1 else 0)
    requires |y| == (if n >= 2 then 1 else 0) && |z| == (if n >= 1 then 1 else 0)
    ensures J.LastBytes(Kept(w) + Kept(x) + Kept(y) + Kept(z), 2) == [LF, LF]
       <==> || (y == [LF] && z == [LF]) || (x == [LF] && y == [CR] && z == [LF])
            || (w == [LF] && x == [CR] && y == [CR] && z == [LF]) || (x == [LF] && y == [LF] && z == [CR])
            || (w == [LF] && x == [CR] && y == [LF] && z == [CR]) || (w == [LF] && x == [LF] && y == [CR] && z == [CR])
  {
    var a, b, c, d := Kept(w), Kept(x), Kept(y), Kept(z);
    var t := a + b + c + d;
    if |d| == 1 && |c| == 1 {
      TailOfTwo(a + b, c, d);
    } else if |d| == 1 {
      assert t == a + b + d;
      FromTwo(a, b, d);
    } else if |c| == 1 {
      assert t == a + b + c;
      FromTwo(a, b, c);
    } else {
      assert t == a + b;
      if |a| == 1 && |b| == 1 {
        TailOfTwo([], a, b);
        assert [] + a + b == a + b;
      }
    }
  }

  lemma TailOfTwo(front: bytes, p: bytes, q: bytes)
    requires |p| == 1 && |q| == 1
    ensures J.LastBytes(front + p + q, 2) == p + q
    ensures p + q == [LF, LF] <==> p == [LF] && q == [LF]
  {
    assert p == [p[0]] && q == [q[0]] && p + q == [p[0], q[0]];
  }

  lemma FromTwo(a: bytes, b: bytes, q: bytes)
    requires |a| <= 1 && |b| <= 1 && |q| == 1
    ensures J.LastBytes(a + b + q, 2) == [LF, LF] <==> q == [LF] && (if b == [] then a == [LF] else b == [LF])
  {
    if |b| == 1 {
      TailOfTwo(a, b, q);
    } else if |a| == 1 {
      TailOfTwo([], a, q);
      assert a + b + q == [] + a + q;
    } else {
      assert a + b + q == q;
    }
  }

  /** Which blobs pass the test. */
  lemma DoubleLineBreakExactly(s: bytes)
    ensures J.EndsWithDoubleLineBreak(s) <==> EndsInBreak(s)
  {
    TestByBytes(s);
    EndingByBytes(s);
  }

  // ---------------------------------------------------------------- header blocks with carriage returns

  const CRLF: bytes := [CR, LF]

  /** The header block as another writer may print it. */
  function CrlfHeaders(hs: seq<Header>): bytes {
    if hs == [] then [] else BareLine(hs[0]) + CRLF + CrlfHeaders(hs[1..])
  }

  /** Every line feed comes after a carriage return, and that after neither. */
  predicate CrlfBreaks(s: bytes) {
    forall e | 0 <= e < |s| && s[e] == LF :: e > 1 && s[e - 1] == CR && s[e - 2] != LF && s[e - 2] != CR
  }

  lemma CrlfLine(h: Header)
    requires GoodHeader(h)
    ensures CrlfBreaks(BareLine(h) + CRLF)
  {
    var line := BareLine(h);
    assert LF !in line;
    assert line[|line| - 1] == if h.value == [] then ' ' else h.value[|h.value| - 1];
  }

  lemma CrlfConcat(a: bytes, b: bytes)
    requires CrlfBreaks(a) && CrlfBreaks(b)
    ensures CrlfBreaks(a + b)
  {
    forall e | 0 <= e < |a + b| && (a + b)[e] == LF
      ensures e > 1 && (a + b)[e - 1] == CR && (a + b)[e - 2] != LF && (a + b)[e - 2] != CR
    {
      if e >= |a| {
        assert b[e - |a|] == LF;
      } else {
        assert a[e] == LF;
      }
    }
  }

  lemma {:induction false} CrlfHeadersBreak(hs: seq<Header>)
    requires GoodHeaders(hs)
    ensures CrlfBreaks(CrlfHeaders(hs))
    ensures hs != [] ==> EndsIn(CrlfHeaders(hs), [LF])
  {
    if hs != [] {
      assert hs[0] in hs;
      CrlfHeadersBreak(hs[1..]);
      CrlfLine(hs[0]);
      CrlfConcat(BareLine(hs[0]) + CRLF, CrlfHeaders(hs[1..]));
    }
  }

  /** Within such a block nothing passes for a double line break. */
  lemma NoBreakInside(text: bytes, f: nat)
    requires CrlfBreaks(text) && 0 < f <= |text| && text[f - 1] == LF
    ensures !J.EndsWithDoubleLineBreak(text[..f])
  {
    var s := text[..f];
    DoubleLineBreakExactly(s);
    EndingsByBytes(s);
    assert At(s, 1) == [LF] && At(s, 2) == [CR] && At(s, 3) != [LF] && At(s, 3) != [CR];
  }

  /** The scan stops right after the blank line. */
  lemma CrlfBlockFound(hs: seq<Header>, rest: bytes)
    requires hs != [] && GoodHeaders(hs)
    ensures J.Scan(CrlfHeaders(hs) + CRLF + rest, 0, 0) == |CrlfHeaders(hs)| + 2
  {
    var text := CrlfHeaders(hs);
    var blob, n := text + CRLF + rest, |text|;
    CrlfHeadersBreak(hs);
    assert blob[..n + 2] == text + CRLF;
    BreakAtEnd(text);
    assert J.BlockEnd(blob, n + 2);
    forall f: nat | J.BlockEnd(blob, f) ensures n + 2 <= f {
      NotBefore(text, rest, f);
    }
    J.HeaderEndExactly(blob, n + 2);
  }

  lemma BreakAtEnd(text: bytes)
    requires EndsIn(text, [LF])
    ensures J.EndsWithDoubleLineBreak(text + CRLF)
  {
    var block := text + CRLF;
    EndingsByBytes(block);
    DoubleLineBreakExactly(block);
    assert At(block, 1) == [LF] && At(block, 2) == [CR] && At(block, 3) == [text[|text| - 1]] == [LF];
  }

  lemma NotBefore(text: bytes, rest: bytes, f: nat)
    requires CrlfBreaks(text) && J.BlockEnd(text + CRLF + rest, f)
    ensures f >= |text| + 2
  {
    var blob := text + CRLF + rest;
    if f <= |text| {
      assert blob[f - 1] == text[f - 1] == LF;
      assert blob[..f] == text[..f];
      NoBreakInside(text, f);
    }
  }

  function CrlfTrimmed(hs: seq<Header>): bytes
    requires hs != []
  {
    if |hs| == 1 then TightLine(hs[0]) else BareLine(hs[0]) + CRLF + CrlfTrimmed(hs[1..])
  }

  function CrlfPadding(hs: seq<Header>): (pad: bytes)
    requires hs != []
    ensures AllBlank(IsSpace, pad)
  {
    if hs[|hs| - 1].value == [] then [' '] + CRLF + CRLF else CRLF + CRLF
  }

  lemma {:induction false} CrlfBlockIsPadded(hs: seq<Header>)
    requires hs != []
    ensures CrlfHeaders(hs) + CRLF == CrlfTrimmed(hs) + CrlfPadding(hs)
  {
    var rest := hs[1..];
    assert CrlfHeaders(hs) == BareLine(hs[0]) + CRLF + CrlfHeaders(rest);
    if |hs| == 1 {
      assert rest == [] && CrlfHeaders(rest) == [];
      LastLinePadded(hs[0]);
    } else {
      CrlfBlockIsPadded(rest);
      assert CrlfPadding(hs) == CrlfPadding(rest);
      PaddedBehind(BareLine(hs[0]) + CRLF, CrlfHeaders(rest), CrlfTrimmed(rest), CrlfPadding(rest));
    }
  }

  lemma PaddedBehind(line: bytes, more: bytes, block: bytes, pad: bytes)
    requires more + CRLF == block + pad
    ensures line + more + CRLF == line + block + pad
  {
    Associative(line, more, CRLF);
    Associative(line, block, pad);
  }

  lemma LastLinePadded(h: Header)
    ensures BareLine(h) + CRLF + [] + CRLF == TightLine(h) + if h.value == [] then [' '] + CRLF + CRLF else CRLF + CRLF
  {
  }

  lemma {:induction false} CrlfTrimmedTight(hs: seq<Header>)
    requires hs != [] && forall i | 0 <= i < |hs| :: PortableHeader(hs[i])
    ensures CrlfTrimmed(hs) != [] && Tight(IsSpace, CrlfTrimmed(hs))
  {
    PortableNameClean(hs[0]);
    TightLineEnds(hs[0]);
    if |hs| > 1 {
      CrlfTrimmedTight(hs[1..]);
      assert BareLine(hs[0])[0] == TightLine(hs[0])[0];
    }
  }

  lemma CrlfBlockTrims(hs: seq<Header>)
    requires hs != [] && forall i | 0 <= i < |hs| :: PortableHeader(hs[i])
    ensures Trim(IsSpace, CrlfHeaders(hs) + CRLF) == CrlfTrimmed(hs)
  {
    CrlfBlockIsPadded(hs);
    CrlfTrimmedTight(hs);
    TrimAfter(IsSpace, CrlfTrimmed(hs), CrlfPadding(hs));
  }

  lemma SplitCrlf(line: bytes, rest: bytes)
    requires LF !in line
    ensures J.SplitLines(line + CRLF + rest) == [line] + J.SplitLines(rest)
  {
    var s := line + CRLF + rest;
    assert s == (line + [CR]) + [LF] + rest;
    CutAtFirst(s, line + [CR], LF, rest);
    assert (line + [CR])[..|line|] == line;
  }

  lemma {:induction false} CrlfBlockSplits(hs: seq<Header>)
    requires hs != [] && forall i | 0 <= i < |hs| :: Unbroken(BlockLines(hs)[i])
    ensures J.SplitLines(CrlfTrimmed(hs)) == BlockLines(hs)
  {
    var lines := BlockLines(hs);
    assert Unbroken(lines[0]);
    if |hs| == 1 {
      SplitFirst(lines[0], []);
    } else {
      assert forall i | 0 <= i < |hs| - 1 :: BlockLines(hs[1..])[i] == lines[i + 1];
      CrlfBlockSplits(hs[1..]);
      SplitCrlf(lines[0], CrlfTrimmed(hs[1..]));
    }
  }

  // ---------------------------------------------------------------- the whole blob

  /** The header block in either form. */
  function Block(hs: seq<Header>, crlf: bool): bytes {
    if crlf then CrlfHeaders(hs) + CRLF else PrintHeaders(hs) + [LF]
  }

  lemma BlockParses(hs: seq<Header>, crlf: bool, rest: bytes)
    requires hs != [] && forall i | 0 <= i < |hs| :: PortableHeader(hs[i])
    ensures J.Scan(Block(hs, crlf) + rest, 0, 0) == |Block(hs, crlf)|
    ensures J.ParseLines(J.SplitLines(Trim(IsSpace, Block(hs, crlf)))) == J.Entries(hs)
  {
    forall h | h in hs ensures GoodHeader(h) {
      var i :| 0 <= i < |hs| && hs[i] == h;
      PortableNameClean(hs[i]);
    }
    if crlf {
      CrlfBlockFound(hs, rest);
      CrlfBlockTrims(hs);
      PortableLines(hs);
      CrlfBlockSplits(hs);
      JsParseEach(BlockLines(hs), hs);
    } else {
      HeaderBlockFound(hs, rest);
      BlockTrims(hs);
      JsBlockRoundTrip(hs);
    }
  }

  lemma ParsesParts(head: bytes, rest: bytes, hs: seq<Header>, parseInt: bytes -> nat)
    requires J.Scan(head + rest, 0, 0) == |head| && J.ParseLines(J.SplitLines(Trim(IsSpace, head))) == J.Entries(hs)
    ensures var headers := J.HeaderObject(hs);
            J.ParseBlob(head + rest, parseInt) ==
              if LENGTH_NAME !in headers then J.JsMessage(headers, rest)
              else if J.NewlineAt(rest, parseInt(headers[LENGTH_NAME]))
              then J.JsMessage(headers, rest[..parseInt(headers[LENGTH_NAME])])
              else J.Threw
  {
    assert (head + rest)[..|head|] == head && (head + rest)[|head|..] == rest;
  }

  ghost predicate Closed(rest: bytes, body: bytes) {
    exists tail :: Closes(rest, body, tail)
  }

  lemma NewlineExactly(rest: bytes, n: nat, body: bytes)
    requires |body| == n
    ensures J.NewlineAt(rest, n) && rest[..n] == body <==> Closed(rest, body)
  {
    if J.NewlineAt(rest, n) && rest[..n] == body {
      if rest[n] == LF {
        assert rest == body + [LF] + rest[n + 1..];
        assert Closes(rest, body, rest[n + 1..]);
      } else {
        assert rest == body + [CR, LF] + rest[n + 2..];
        assert Closes(rest, body, rest[n + 2..]);
      }
    }
    if tail :| Closes(rest, body, tail) {
      assert rest[..n] == body;
    }
  }

  /**
   Exactly what is read behind portable headers, with lines of either form: without a length everything, and with a length
   that many bytes if a newline of either form follows them; otherwise the parser throws.
   */
  lemma ReadExactly(hs: seq<Header>, crlf: bool, rest: bytes, body: bytes, parseInt: bytes -> nat)
    requires hs != [] && forall i | 0 <= i < |hs| :: PortableHeader(hs[i])
    ensures var headers := J.HeaderObject(hs);
            J.ParseBlob(Block(hs, crlf) + rest, parseInt) == J.JsMessage(headers, body) <==>
              if LENGTH_NAME !in headers then body == rest
              else |body| == parseInt(headers[LENGTH_NAME]) && Closed(rest, body)
    ensures J.ParseBlob(Block(hs, crlf) + rest, parseInt).JsMessage? ==>
              J.ParseBlob(Block(hs, crlf) + rest, parseInt).headers == J.HeaderObject(hs)
  {
    var headers := J.HeaderObject(hs);
    BlockParses(hs, crlf, rest);
    ParsesParts(Block(hs, crlf), rest, hs, parseInt);
    if LENGTH_NAME in headers {
      var n := parseInt(headers[LENGTH_NAME]);
      if |body| == n {
        NewlineExactly(rest, n, body);
      }
    }
  }

  /** A block is refused exactly if one of its lines has no colon. */
  lemma {:induction false} NoColonThrows(lines: seq<bytes>)
    ensures J.ParseLines(lines).Throw? <==> exists line :: line in lines && COLON !in line
  {
    if lines != [] {
      NoColonThrows(lines[1..]);
      if line :| line in lines && COLON !in line {
        assert line == lines[0] || line in lines[1..];
      }
    }
  }
}
