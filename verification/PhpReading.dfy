/**
 What the PHP reader makes of any bytes (php/Interop/StreamReader.php, php/Interop/Header.php): which texts it reads, with
 newlines of either form, and which error it gives otherwise.
 */
module PhpReading {
  import opened Bytes
  import opened Headers
  import opened WireCodec
  import opened Reading
  import P = PhpStream
  import Agreement
  import Portability

  /** Trimming neither adds nor removes a colon. */
  lemma TrimKeepsColon(s: bytes)
    ensures COLON in Trim(P.IsPhpBlank, s) <==> COLON in s
  {
    TrimTight(P.IsPhpBlank, s);
    if COLON in s {
      var i := IndexOf(s, COLON);
      assert s == s[..i] + [COLON] + s[i + 1..];
      Portability.PhpTrimParts(s[..i], s[i + 1..]);
    }
  }

  lemma {:induction false} NoColonNoHeaders(lines: seq<bytes>)
    ensures P.PhpParseHeaders(lines).SomeBad? <==> exists line :: line in lines && COLON !in line
  {
    if lines != [] {
      TrimKeepsColon(lines[0]);
      NoColonNoHeaders(lines[1..]);
      if line :| line in lines && COLON !in line {
        assert line == lines[0] || line in lines[1..];
      }
    }
  }

  /** A header block is refused exactly if one of its lines has no colon. */
  lemma InvalidHeaderExactly(lines: seq<bytes>, blank: bytes, rest: bytes, intval: bytes -> nat)
    requires TextLines(lines) && IsBlankLine(blank)
    ensures P.PhpRead(Text(lines, blank, rest), intval) == P.PhpFailed(P.InvalidHeader)
       <==> exists line :: line in lines && COLON !in line
  {
    ParagraphOf(lines, blank, rest);
    NoColonNoHeaders(lines);
    if P.PhpParseHeaders(lines).AllParsed? {
      BodyErrors(P.PhpParseHeaders(lines).headers, rest, intval);
    }
    HeadersFirst(Text(lines, blank, rest), lines, rest, intval);
  }

  lemma BodyErrors(hs: seq<Header>, rest: bytes, intval: bytes -> nat)
    ensures P.PhpBody(hs, rest, intval) != P.PhpFailed(P.InvalidHeader)
  {
  }

  lemma HeadersFirst(s: bytes, lines: seq<bytes>, rest: bytes, intval: bytes -> nat)
    requires Paragraph(s) == Got(lines, rest)
    ensures P.PhpParseHeaders(lines).SomeBad? ==> P.PhpRead(s, intval) == P.PhpFailed(P.InvalidHeader)
    ensures P.PhpParseHeaders(lines).AllParsed? && P.PhpRead(s, intval).PhpFailed? ==>
              P.PhpBody(P.PhpParseHeaders(lines).headers, rest, intval) == P.PhpFailed(P.PhpRead(s, intval).error)
  {
  }

  lemma NewlineExactly(s: bytes, tail: bytes)
    ensures P.PhpNewline(s) == P.PhpGot([], tail) <==> s == [LF] + tail || s == [CR, LF] + tail
    ensures P.PhpNewline(s) == P.PhpFailed(P.Unexpected)
       <==> s != [] && s[0] != LF && !(s[0] == CR && (|s| == 1 || s[1] == LF))
  {
    if s == [LF] + tail {
      assert s[1..] == tail;
    }
    if s == [CR, LF] + tail {
      assert s[2..] == tail;
    }
    if s != [] {
      assert s == [s[0]] + s[1..];
      assert |s| > 1 ==> s == [s[0], s[1]] + s[2..];
    }
  }

  lemma SizedExactly(n: nat, rest: bytes, body: bytes, tail: bytes)
    ensures P.PhpSized(n, rest) == P.PhpGot(body, tail) <==> |body| == n && Closes(rest, body, tail)
    ensures P.PhpSized(n, rest) == P.PhpFailed(P.Unexpected)
       <==> |rest| > n && rest[n] != LF && !(rest[n] == CR && (|rest| == n + 1 || rest[n + 1] == LF))
  {
    if |rest| >= n {
      var s := rest[n..];
      assert rest == rest[..n] + s;
      NewlineExactly(s, tail);
      if |body| == n {
        assert rest == body + [LF] + tail <==> rest[..n] == body && s == [LF] + tail by { Halves(rest, n, body, [LF], tail); }
        assert rest == body + [CR, LF] + tail <==> rest[..n] == body && s == [CR, LF] + tail by { Halves(rest, n, body, [CR, LF], tail); }
      }
    }
  }

  lemma Halves(rest: bytes, n: nat, body: bytes, newline: bytes, tail: bytes)
    requires |rest| >= n == |body|
    ensures rest == body + newline + tail <==> rest[..n] == body && rest[n..] == newline + tail
  {
    assert (body + newline + tail)[..n] == body && (body + newline + tail)[n..] == newline + tail;
    assert rest == rest[..n] + rest[n..];
    assert body + (newline + tail) == body + newline + tail;
  }

  /** Exactly what is read, for every text whose header block is complete and all colons. */
  lemma ReadExactly(lines: seq<bytes>, blank: bytes, rest: bytes, hs: seq<Header>, body: bytes, tail: bytes, intval: bytes -> nat)
    requires TextLines(lines) && IsBlankLine(blank) && P.PhpParseHeaders(lines) == AllParsed(hs)
    ensures P.PhpRead(Text(lines, blank, rest), intval) == P.PhpGot(Message(hs, body), tail)
       <==> && Closes(rest, body, tail)
            && if LengthOf(hs) != "" then intval(LengthOf(hs)) == |body| else UnbrokenLines(body)
  {
    ParagraphOf(lines, blank, rest);
    Agreement.LengthRead(hs);
    if LengthOf(hs) != "" {
      SizedExactly(intval(LengthOf(hs)), rest, body, tail);
    } else {
      UnsizedExactly(rest, body, tail);
      BodyOf(hs, rest, body, tail, intval);
    }
  }

  lemma BodyOf(hs: seq<Header>, rest: bytes, body: bytes, tail: bytes, intval: bytes -> nat)
    requires P.PhpGet(hs, LENGTH_NAME) == ""
    ensures P.PhpBody(hs, rest, intval) == P.PhpGot(body, tail)
       <==> exists lines :: Paragraph(rest) == Got(lines, tail) && Concat(lines) == body
  {
  }
}
