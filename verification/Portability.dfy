/**
 Exactly which messages the Go, PHP and JavaScript readers agree on: of the well-formed messages with a header and a counted
 body, those whose headers are portable, and no others.
 */
module Portability {
  import opened Bytes
  import opened Headers
  import opened Keys
  import opened WireCodec
  import opened Agreement
  import J = JsBlob
  import P = PhpStream

  // ---------------------------------------------------------------- what PHP makes of a header line

  lemma {:induction false} TrimLeftPast(blank: byte -> bool, a: bytes, y: bytes)
    requires y != [] && !blank(y[0])
    ensures TrimLeft(blank, a + y) == TrimLeft(blank, a) + y
  {
    if a == [] {
      assert a + y == y && [] + y == y;
    } else {
      assert (a + y)[1..] == a[1..] + y;
      TrimLeftPast(blank, a[1..], y);
    }
  }

  lemma {:induction false} TrimRightPast(blank: byte -> bool, x: bytes, b: bytes)
    requires x != [] && !blank(x[|x| - 1])
    ensures TrimRight(blank, x + b) == x + TrimRight(blank, b)
  {
    if b == [] {
      assert x + b == x && x + [] == x;
    } else {
      assert (x + b)[..|x + b| - 1] == x + b[..|b| - 1];
      TrimRightPast(blank, x, b[..|b| - 1]);
    }
  }

  /** Name and value as PHP trims them, with the colon in between to stop at. */
  lemma PhpTrimParts(name: bytes, rest: bytes)
    ensures Trim(P.IsPhpBlank, name + [COLON] + rest)
         == TrimLeft(P.IsPhpBlank, name) + [COLON] + TrimRight(P.IsPhpBlank, rest)
  {
    var r := TrimRight(P.IsPhpBlank, rest);
    TrimRightPast(P.IsPhpBlank, name + [COLON], rest);
    assert name + [COLON] + r == name + ([COLON] + r);
    TrimLeftPast(P.IsPhpBlank, name, [COLON] + r);
    assert TrimLeft(P.IsPhpBlank, name) + ([COLON] + r) == TrimLeft(P.IsPhpBlank, name) + [COLON] + r;
  }

  lemma TrimLeftPart(name: bytes)
    requires COLON !in name
    ensures COLON !in TrimLeft(P.IsPhpBlank, name) && |TrimLeft(P.IsPhpBlank, name)| <= |name|
  {
    TrimLeftShape(P.IsPhpBlank, name);
  }

  lemma PhpParsesTo(h: Header)
    requires GoodHeader(h)
    ensures P.PhpParseHeader(HeaderLine(h))
         == Parsed(Header(P.CanonicalName(TrimLeft(P.IsPhpBlank, h.name)),
                          TrimLeft(IsSpace, TrimRight(P.IsPhpBlank, " " + h.value + [LF]))))
  {
    var rest := " " + h.value + [LF];
    var left, right := TrimLeft(P.IsPhpBlank, h.name), TrimRight(P.IsPhpBlank, rest);
    assert HeaderLine(h) == h.name + [COLON] + rest;
    PhpTrimParts(h.name, rest);
    TrimLeftPart(h.name);
    CutAtFirst(left + [COLON] + right, left, COLON, right);
  }

  // ---------------------------------------------------------------- what PHP does not change is portable

  /** A name that PHP gives back has nothing to trim and is canonical. */
  lemma NameKept(name: bytes)
    requires COLON !in name && P.CanonicalName(TrimLeft(P.IsPhpBlank, name)) == name
    ensures CanonicalizeKey(name) == name && Tight(P.IsPhpBlank, name)
  {
    var left := TrimLeft(P.IsPhpBlank, name);
    var both := Trim(P.IsPhpBlank, left);
    CanonicalizeShrinks(both);
    TrimLeftShape(P.IsPhpBlank, name);
    TrimTight(P.IsPhpBlank, left);
    assert |name| <= |both| <= |left| <= |name|;
    assert both == left == name;
  }

  lemma {:induction false} TrimLeftShrinks(blank: byte -> bool, s: bytes)
    ensures |TrimLeft(blank, s)| <= |s|
    ensures s != [] && blank(s[0]) ==> |TrimLeft(blank, s)| < |s|
  {
    if s != [] && blank(s[0]) {
      TrimLeftShrinks(blank, s[1..]);
    }
  }

  lemma {:induction false} TrimRightShrinks(blank: byte -> bool, s: bytes)
    ensures TrimRight(blank, s) <= s
  {
    if s != [] && blank(s[|s| - 1]) {
      TrimRightShrinks(blank, s[..|s| - 1]);
    }
  }

  /** A value that ends in what PHP trims comes back shorter. */
  lemma ValueCut(value: bytes)
    requires value != [] && P.IsPhpBlank(value[|value| - 1])
    ensures |TrimLeft(IsSpace, TrimRight(P.IsPhpBlank, " " + value + [LF]))| < |value|
  {
    var text: bytes := " " + value;
    assert (text + [LF])[..|text|] == text;
    assert TrimRight(P.IsPhpBlank, text + [LF]) == TrimRight(P.IsPhpBlank, text);
    assert text[|text| - 1] == value[|value| - 1];
    var shorter := text[..|text| - 1];
    assert TrimRight(P.IsPhpBlank, text) == TrimRight(P.IsPhpBlank, shorter);
    TrimRightShrinks(P.IsPhpBlank, shorter);
    TrimLeftShrinks(IsSpace, TrimRight(P.IsPhpBlank, shorter));
    assert |shorter| == |value| && shorter[0] == ' ';
  }

  /** PHP gives a header back exactly if it is portable. */
  lemma PhpReadsExactly(h: Header)
    requires GoodHeader(h)
    ensures PhpReads(h) <==> PortableHeader(h)
  {
    PhpParsesTo(h);
    if PhpReads(h) {
      NameKept(h.name);
      if h.value != [] && P.IsPhpBlank(h.value[|h.value| - 1]) {
        ValueCut(h.value);
      }
    } else if PortableHeader(h) {
      PhpHeaderRoundTrip(h);
    }
  }

  lemma PhpParsedFirst(line: bytes, lines: seq<bytes>, hs: seq<Header>)
    requires P.PhpParseHeaders([line] + lines) == AllParsed(hs)
    ensures hs != [] && P.PhpParseHeader(line) == Parsed(hs[0]) && P.PhpParseHeaders(lines) == AllParsed(hs[1..])
  {
    assert ([line] + lines)[1..] == lines;
    var first, more := P.PhpParseHeader(line), P.PhpParseHeaders(lines);
    assert hs == [first.header] + more.headers;
  }

  lemma {:induction false} PhpParsedEach(hs: seq<Header>, i: nat)
    requires P.PhpParseHeaders(HeaderLines(hs)) == AllParsed(hs) && i < |hs|
    ensures PhpReads(hs[i])
  {
    PhpParsedFirst(HeaderLine(hs[0]), HeaderLines(hs[1..]), hs);
    if i > 0 {
      PhpParsedEach(hs[1..], i - 1);
    }
  }

  lemma PhpHeadersReturned(m: Message, tail: bytes, intval: bytes -> nat)
    requires GoodHeaders(m.headers) && P.PhpRead(Print(m) + tail, intval) == P.PhpGot(m, tail)
    ensures P.PhpParseHeaders(HeaderLines(m.headers)) == AllParsed(m.headers)
  {
    var s := m.body + [LF] + tail;
    PrintedBehind(m, tail);
    HeaderLinesRead(m.headers, s);
    HeadersOfRead(Print(m) + tail, HeaderLines(m.headers), s, m, tail, intval);
  }

  lemma HeadersOfRead(s: bytes, lines: seq<bytes>, rest: bytes, m: Message, tail: bytes, intval: bytes -> nat)
    requires Paragraph(s) == Got(lines, rest) && P.PhpRead(s, intval) == P.PhpGot(m, tail)
    ensures P.PhpParseHeaders(lines) == AllParsed(m.headers)
  {
  }

  lemma PhpReturnsPortable(m: Message, tail: bytes, intval: bytes -> nat)
    requires GoodHeaders(m.headers) && P.PhpRead(Print(m) + tail, intval) == P.PhpGot(m, tail)
    ensures forall i | 0 <= i < |m.headers| :: PortableHeader(m.headers[i])
  {
    PhpHeadersReturned(m, tail, intval);
    forall i | 0 <= i < |m.headers| ensures PortableHeader(m.headers[i]) {
      PhpParsedEach(m.headers, i);
      assert m.headers[i] in m.headers;
      PhpReadsExactly(m.headers[i]);
    }
  }

  // ---------------------------------------------------------------- all three

  /** The JavaScript parser gives the body back, and an object with the headers of the list and no others. */
  ghost predicate JsReturns(m: Message, parseInt: bytes -> nat) {
    var r := J.ParseBlob(Print(m), parseInt);
    && r.JsMessage? && r.body == m.body
    && forall name, value :: (name in r.headers && r.headers[name] == value) <==> Header(name, value) in m.headers
  }

  lemma JsReturnsConsistent(m: Message, parseInt: bytes -> nat)
    requires JsReturns(m, parseInt)
    ensures Consistent(m.headers)
  {
    var r := J.ParseBlob(Print(m), parseInt);
    forall i, j | 0 <= i < j < |m.headers| && m.headers[i].name == m.headers[j].name
      ensures m.headers[i].value == m.headers[j].value
    {
      var a, b := m.headers[i], m.headers[j];
      assert Header(a.name, a.value) in m.headers && Header(b.name, b.value) in m.headers;
    }
  }

  /** Of well-formed messages with a header and a counted body, all three readers give back exactly the portable ones. */
  lemma ReadersAgreeExactly(m: Message, tail: bytes, intval: bytes -> nat, parseInt: bytes -> nat)
    requires WellFormed(m) && m.headers != []
    requires LengthOf(m.headers) == Decimal(|m.body|) && |m.body| < TWO_64
    requires intval(Decimal(|m.body|)) == |m.body| && parseInt(Decimal(|m.body|)) == |m.body|
    ensures ReadMessage(Print(m) + tail) == Got(m, tail)
    ensures P.PhpRead(Print(m) + tail, intval) == P.PhpGot(m, tail) && JsReturns(m, parseInt) <==> Portable(m)
  {
    RoundTrip(m, tail);
    if Portable(m) {
      ReadersAgree(m, tail, intval, parseInt);
    } else if P.PhpRead(Print(m) + tail, intval) == P.PhpGot(m, tail) && JsReturns(m, parseInt) {
      PhpReturnsPortable(m, tail, intval);
      JsReturnsConsistent(m, parseInt);
    }
  }
}
