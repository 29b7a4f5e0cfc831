/**
 What a failed write leaves on a byte stream. interop/writer.go writes a message piece by piece, so a failure can leave
 an initial part of it, and interop/reader.go sees that part in front of whatever is written next.
 */
module TornWrites {
  import opened Bytes
  import opened Headers
  import opened WireCodec

  // ---------------------------------------------------------------- reads are self-delimiting

  lemma SplitLine(s: bytes, i: nat, t: bytes)
    requires i == IndexOf(s, LF)
    ensures IsLine(s[..i + 1]) && s + t == s[..i + 1] + (s[i + 1..] + t)
  {
    assert s[..i + 1][..i] == s[..i];
  }

  lemma BlankEnds(line: bytes, t: bytes)
    requires IsLine(line) && IsBlankLine(line)
    ensures Paragraph(line + t) == Got([], t)
  {
    FirstLine(line, t);
  }

  lemma {:induction false} ParagraphExtends(s: bytes, t: bytes)
    requires Paragraph(s).Got?
    ensures Paragraph(s + t) == Got(Paragraph(s).value, Paragraph(s).rest + t)
    decreases |s|
  {
    var i := IndexOf(s, LF);
    var line, rest := s[..i + 1], s[i + 1..];
    SplitLine(s, i, t);
    if IsBlankLine(line) {
      BlankEnds(line, rest + t);
    } else {
      ParagraphExtends(rest, t);
      ParagraphGoesOn(s + t, line, rest + t, Paragraph(rest).value, Paragraph(rest).rest + t);
    }
  }

  lemma SizedExtends(n: nat, s: bytes, t: bytes)
    requires Sized(n, s).Got?
    ensures Sized(n, s + t) == Got(Sized(n, s).value, Sized(n, s).rest + t)
  {
    assert (s + t)[..n] == s[..n] && (s + t)[n] == s[n];
    if s[n] == CR {
      assert (s + t)[n + 1] == s[n + 1] && (s + t)[n + 2..] == s[n + 2..] + t;
    } else {
      assert (s + t)[n + 1..] == s[n + 1..] + t;
    }
  }

  lemma BodyExtends(hs: seq<Header>, s: bytes, t: bytes)
    requires ReadBody(hs, s).Got?
    ensures ReadBody(hs, s + t) == Got(ReadBody(hs, s).value, ReadBody(hs, s).rest + t)
  {
    if LengthOf(hs) != "" {
      SizedExtends(ParseUint(LengthOf(hs)), s, t);
    } else {
      ParagraphExtends(s, t);
    }
  }

  /** A read that succeeds does not look at what follows. */
  lemma ReadExtends(s: bytes, t: bytes)
    requires ReadMessage(s).Got?
    ensures ReadMessage(s + t) == Got(ReadMessage(s).value, ReadMessage(s).rest + t)
  {
    ParagraphExtends(s, t);
    BodyExtends(ReadHeaders(s).value, ReadHeaders(s).rest, t);
  }

  /** What a failed write can leave: part of a printed message, but not all of it. */
  ghost predicate Fragment(frag: bytes) {
    exists m, t :: PartOf(frag, m, t)
  }

  predicate PartOf(frag: bytes, m: Message, t: bytes) {
    WellFormed(m) && Print(m) == frag + t && t != []
  }

  /** A fragment is never read as a message. */
  lemma FragmentUnread(frag: bytes)
    requires Fragment(frag)
    ensures !ReadMessage(frag).Got?
  {
    var m, t :| PartOf(frag, m, t);
    assert Print(m) + [] == Print(m);
    RoundTrip(m, []);
    if ReadMessage(frag).Got? {
      ReadExtends(frag, t);
    }
  }

  // ---------------------------------------------------------------- what is written behind a fragment

  /** Torn right behind some headers, a message lends them to the next one. */
  lemma HeadersMix(hs: seq<Header>, m: Message, tail: bytes)
    requires WellFormed(Message(hs + m.headers, m.body))
    ensures ReadMessage(PrintHeaders(hs) + Print(m) + tail) == Got(Message(hs + m.headers, m.body), tail)
  {
    PrintJoined(hs, m);
    RoundTrip(Message(hs + m.headers, m.body), tail);
  }

  lemma PrintJoined(hs: seq<Header>, m: Message)
    ensures PrintHeaders(hs) + Print(m) == Print(Message(hs + m.headers, m.body))
  {
    PrintHeadersConcat(hs, m.headers);
    JoinFour(PrintHeaders(hs), PrintHeaders(m.headers), m.body);
  }

  lemma JoinFour(a: bytes, b: bytes, body: bytes)
    ensures a + (b + [LF] + body + [LF]) == (a + b) + [LF] + body + [LF]
  {
  }

  lemma {:induction false} PrintHeadersConcat(hs: seq<Header>, more: seq<Header>)
    ensures PrintHeaders(hs + more) == PrintHeaders(hs) + PrintHeaders(more)
  {
    if hs == [] {
      assert hs + more == more;
    } else {
      assert (hs + more)[1..] == hs[1..] + more;
      PrintHeadersConcat(hs[1..], more);
      Associative(HeaderLine(hs[0]), PrintHeaders(hs[1..]), PrintHeaders(more));
    }
  }

  lemma {:induction false} TrimLeftKeeps(blank: byte -> bool, a: bytes, y: bytes)
    requires y != [] && !blank(y[0])
    ensures |TrimLeft(blank, a + y)| >= |y|
  {
    if a == [] {
      assert a + y == y;
    } else {
      assert (a + y)[1..] == a[1..] + y;
      TrimLeftKeeps(blank, a[1..], y);
    }
  }

  lemma {:induction false} TrimRightKeeps(blank: byte -> bool, x: bytes, b: bytes) returns (b': bytes)
    requires x != [] && !blank(x[|x| - 1])
    ensures TrimRight(blank, x + b) == x + b'
  {
    if b == [] || !blank(b[|b| - 1]) {
      b' := b;
    } else {
      assert (x + b)[..|x + b| - 1] == x + b[..|b| - 1];
      b' := TrimRightKeeps(blank, x, b[..|b| - 1]);
    }
  }

  /** Trimming keeps whatever stands between two bytes that are not blank. */
  lemma TrimKeeps(blank: byte -> bool, a: bytes, core: bytes, b: bytes)
    requires core != [] && !blank(core[0]) && !blank(core[|core| - 1])
    ensures |Trim(blank, a + core + b)| >= |core|
  {
    var b' := TrimRightKeeps(blank, a + core, b);
    assert a + core + b' == a + (core + b');
    TrimLeftKeeps(blank, a, core + b');
  }

  lemma GluedNameLonger(p: bytes, name: bytes)
    requires p != [] && !IsSpace(p[0]) && Tight(IsSpace, name)
    ensures |Trim(IsSpace, p + name)| > |name|
  {
    if name == [] {
      assert p + name == [] + p[..1] + p[1..];
      TrimKeeps(IsSpace, [], p[..1], p[1..]);
    } else {
      assert p + name == [] + (p + name) + [];
      TrimKeeps(IsSpace, [], p + name, []);
    }
  }

  /** A header line behind part of another does not parse as its own header. */
  lemma GluedNameDiffers(p: bytes, h: Header)
    requires GoodHeader(h) && p != [] && !IsSpace(p[0]) && COLON !in p
    ensures ParseHeader(p + HeaderLine(h)) != Parsed(h)
  {
    var line, after := p + HeaderLine(h), " " + h.value + [LF];
    assert line == (p + h.name) + [COLON] + after;
    CutAtFirst(line, p + h.name, COLON, after);
    GluedNameLonger(p, h.name);
    CanonicalKeepsLength(Trim(IsSpace, p + h.name));
  }

  lemma CanonicalKeepsLength(name: bytes)
    ensures |Canonical(name)| == |name|
  {
  }

  lemma GluedValueLonger(back: bytes, h: Header)
    requires GoodHeader(h)
    ensures |Trim(IsSpace, back + HeaderLine(h))| > |h.value|
  {
    var before := back + h.name;
    if h.value == [] {
      assert back + HeaderLine(h) == before + [COLON] + [' ', LF];
      TrimKeeps(IsSpace, before, [COLON], [' ', LF]);
    } else {
      var core := ": " + h.value;
      assert back + HeaderLine(h) == before + core + [LF];
      TrimKeeps(IsSpace, before, core, [LF]);
    }
  }

  lemma GluedValueDiffers(p: bytes, line: bytes, h: Header)
    requires GoodHeader(h) && COLON in p && line == HeaderLine(h)
    ensures ParseHeader(p + line) != Parsed(h)
  {
    var i := IndexOf(p, COLON);
    var front, back := p[..i], p[i + 1..];
    assert p + line == front + [COLON] + (back + line);
    CutAtFirst(p + line, front, COLON, back + line);
    GluedValueLonger(back, h);
  }

  lemma GluedDiffers(p: bytes, h: Header)
    requires GoodHeader(h) && p != [] && !IsSpace(p[0])
    ensures ParseHeader(p + HeaderLine(h)) != Parsed(h)
  {
    if COLON in p {
      GluedValueDiffers(p, HeaderLine(h), h);
    } else {
      GluedNameDiffers(p, h);
    }
  }

  lemma {:induction false} ParsedAll(lines: seq<bytes>)
    ensures ParseHeaders(lines).AllParsed? ==> |ParseHeaders(lines).headers| == |lines|
  {
    if lines != [] {
      ParsedAll(lines[1..]);
    }
  }

  /** The stream from the torn header block on. */
  function Glued(frag: bytes, hs: seq<Header>, rest: bytes): bytes {
    frag + PrintHeaders(hs) + [LF] + rest
  }

  lemma GlueLine(p: bytes, own: bytes)
    requires LF !in p && IsLine(own) && |own| > 2
    ensures IsLine(p + own) && !IsBlankLine(p + own)
  {
    assert (p + own)[..|p + own| - 1] == p + own[..|own| - 1];
  }

  lemma Reglue(p: bytes, own: bytes, more: bytes, rest: bytes)
    ensures p + (own + more) + [LF] + rest == (p + own) + (more + [LF] + rest)
  {
  }

  /** Part of a header line glues itself to the next line. */
  lemma GluedFirstLine(p: bytes, hs: seq<Header>, rest: bytes)
    requires GoodHeaders(hs) && hs != [] && p != [] && LF !in p
    ensures Paragraph(Glued(p, hs, rest)) == Got([p + HeaderLine(hs[0])] + HeaderLines(hs[1..]), rest)
  {
    var own, more := HeaderLine(hs[0]), PrintHeaders(hs[1..]);
    HeaderLineIsLine(hs[0]);
    GlueLine(p, own);
    HeaderLinesRead(hs[1..], rest);
    Reglue(p, own, more, rest);
    ParagraphGoesOn(Glued(p, hs, rest), p + own, more + [LF] + rest, HeaderLines(hs[1..]), rest);
  }

  lemma WholeFirst(line: bytes, more: bytes, frag: bytes)
    requires frag <= line + more && |frag| >= |line|
    ensures frag == line + frag[|line|..] && frag[|line|..] <= more
  {
    assert frag[..|line|] == (line + more)[..|line|] == line;
    assert frag[|line|..] == more[..|frag| - |line|];
  }

  lemma PartFirst(g: Header, more: bytes, frag: bytes)
    requires GoodHeader(g) && frag <= HeaderLine(g) + more && 0 < |frag| < |HeaderLine(g)|
    ensures LF !in frag && !IsSpace(frag[0])
  {
    var line := HeaderLine(g);
    HeaderLineIsLine(g);
    assert frag == line[..|frag|];
    assert forall i | 0 <= i < |frag| :: frag[i] == line[..|line| - 1][i];
    assert line[0] == if g.name == [] then COLON else g.name[0];
  }

  /** The fragment of a header block: whole lines first, or part of one line. */
  lemma FragmentOfHeaders(gs: seq<Header>, frag: bytes)
    requires GoodHeaders(gs) && frag <= PrintHeaders(gs) && frag != []
    ensures gs != []
    ensures |frag| >= |HeaderLine(gs[0])| ==>
              frag == HeaderLine(gs[0]) + frag[|HeaderLine(gs[0])|..] && frag[|HeaderLine(gs[0])|..] <= PrintHeaders(gs[1..])
    ensures |frag| < |HeaderLine(gs[0])| ==> LF !in frag && !IsSpace(frag[0])
  {
    var line, more := HeaderLine(gs[0]), PrintHeaders(gs[1..]);
    if |frag| >= |line| {
      WholeFirst(line, more, frag);
    } else {
      PartFirst(gs[0], more, frag);
    }
  }

  predicate AtLeast(o: Outcome<seq<bytes>>, n: nat) {
    o.Got? ==> |o.value| >= n
  }

  lemma GluedNothing(hs: seq<Header>, rest: bytes)
    ensures Glued([], hs, rest) == PrintHeaders(hs) + [LF] + rest
  {
    assert [] + PrintHeaders(hs) == PrintHeaders(hs);
  }

  lemma NothingGlued(hs: seq<Header>, rest: bytes)
    requires GoodHeaders(hs)
    ensures AtLeast(Paragraph(Glued([], hs, rest)), |hs|)
  {
    GluedNothing(hs, rest);
    HeaderLinesAt(hs);
    HeaderLinesRead(hs, rest);
  }

  lemma PartGlued(p: bytes, hs: seq<Header>, rest: bytes)
    requires GoodHeaders(hs) && p != [] && LF !in p
    ensures AtLeast(Paragraph(Glued(p, hs, rest)), |hs|)
  {
    if hs != [] {
      HeaderLinesAt(hs[1..]);
      GluedFirstLine(p, hs, rest);
    }
  }

  /** None of the next message's header lines disappears. */
  lemma {:induction false} LinesAtLeast(gs: seq<Header>, frag: bytes, hs: seq<Header>, rest: bytes)
    requires GoodHeaders(gs) && frag <= PrintHeaders(gs) && GoodHeaders(hs)
    ensures AtLeast(Paragraph(Glued(frag, hs, rest)), |hs|)
  {
    if frag == [] {
      NothingGlued(hs, rest);
    } else {
      FragmentOfHeaders(gs, frag);
      if |frag| >= |HeaderLine(gs[0])| {
        LinesAtLeast(gs[1..], frag[|HeaderLine(gs[0])|..], hs, rest);
        WholeLineFirst(gs[0], frag, hs, rest);
      } else {
        PartGlued(frag, hs, rest);
      }
    }
  }

  lemma WholeLineFirst(g: Header, frag: bytes, hs: seq<Header>, rest: bytes)
    requires GoodHeader(g) && |HeaderLine(g)| <= |frag| && frag == HeaderLine(g) + frag[|HeaderLine(g)|..]
    ensures var o, o' := Paragraph(Glued(frag, hs, rest)), Paragraph(Glued(frag[|HeaderLine(g)|..], hs, rest));
            o.Got? ==> o'.Got? && |o.value| == |o'.value| + 1
  {
    var line := HeaderLine(g);
    var t := Glued(frag[|line|..], hs, rest);
    HeaderLineIsLine(g);
    assert Glued(frag, hs, rest) == line + t;
    FirstLine(line, t);
  }

  /** One header line too many. */
  lemma WholeLineSpoils(gs: seq<Header>, frag: bytes, hs: seq<Header>, rest: bytes)
    requires GoodHeaders(gs) && gs != [] && GoodHeaders(hs) && |frag| >= |HeaderLine(gs[0])|
    requires frag == HeaderLine(gs[0]) + frag[|HeaderLine(gs[0])|..]
    requires frag[|HeaderLine(gs[0])|..] <= PrintHeaders(gs[1..])
    ensures AtLeast(Paragraph(Glued(frag, hs, rest)), |hs| + 1)
  {
    LinesAtLeast(gs[1..], frag[|HeaderLine(gs[0])|..], hs, rest);
    WholeLineFirst(gs[0], frag, hs, rest);
  }

  /** The first header line spoiled. */
  lemma PartSpoils(p: bytes, hs: seq<Header>, rest: bytes)
    requires GoodHeaders(hs) && p != [] && LF !in p && !IsSpace(p[0]) && Paragraph(Glued(p, hs, rest)).Got?
    ensures ParseHeaders(Paragraph(Glued(p, hs, rest)).value) != AllParsed(hs)
  {
    if hs == [] {
      LoneFragment(p, rest);
      GluedAlone(p, rest);
      ParsedAll(Paragraph(p + [LF] + rest).value);
    } else {
      var line, more := p + HeaderLine(hs[0]), HeaderLines(hs[1..]);
      GluedFirstLine(p, hs, rest);
      GluedDiffers(p, hs[0]);
      FirstDiffers(line, more, hs);
    }
  }

  lemma GluedAlone(p: bytes, rest: bytes)
    ensures Glued(p, [], rest) == p + [LF] + rest
  {
    assert p + [] == p;
  }

  lemma FirstDiffers(line: bytes, lines: seq<bytes>, hs: seq<Header>)
    requires hs != [] && ParseHeader(line) != Parsed(hs[0])
    ensures ParseHeaders([line] + lines) != AllParsed(hs)
  {
    var all := [line] + lines;
    assert all[0] == line;
  }

  /** Torn within the header block, a message spoils the headers of the next. */
  lemma HeadersSpoiled(gs: seq<Header>, frag: bytes, hs: seq<Header>, rest: bytes)
    requires GoodHeaders(gs) && frag <= PrintHeaders(gs) && frag != [] && GoodHeaders(hs)
    ensures ReadHeaders(Glued(frag, hs, rest)).Got? ==> ReadHeaders(Glued(frag, hs, rest)).value != hs
  {
    FragmentOfHeaders(gs, frag);
    var o := Paragraph(Glued(frag, hs, rest));
    if o.Got? {
      if |frag| >= |HeaderLine(gs[0])| {
        WholeLineSpoils(gs, frag, hs, rest);
        ParsedAll(o.value);
      } else {
        PartSpoils(frag, hs, rest);
      }
    }
  }

  lemma LoneFragment(p: bytes, rest: bytes)
    requires p != [] && LF !in p && !IsSpace(p[0])
    ensures Paragraph(p + [LF] + rest).Got? ==> Paragraph(p + [LF] + rest).value != []
  {
    CutAtFirst(p + [LF] + rest, p, LF, rest);
    assert (p + [LF] + rest)[..|p| + 1] == p + [LF];
    assert (p + [LF])[0] == p[0];
  }

  // ---------------------------------------------------------------- the next read

  lemma {:induction false} ParagraphConsumes(s: bytes)
    requires Paragraph(s).Got?
    ensures |s| - |Paragraph(s).rest| <= |Concat(Paragraph(s).value)| + 2
    decreases |s|
  {
    var i := IndexOf(s, LF);
    var line, rest := s[..i + 1], s[i + 1..];
    if !IsBlankLine(line) {
      var o := Paragraph(rest);
      assert Paragraph(s) == Got([line] + o.value, o.rest);
      ParagraphConsumes(rest);
      ConcatFirst(line, o.value);
    }
  }

  lemma BodyConsumes(hs: seq<Header>, s: bytes)
    requires ReadBody(hs, s).Got?
    ensures |s| - |ReadBody(hs, s).rest| <= |ReadBody(hs, s).value| + 2
  {
    if LengthOf(hs) == "" {
      ParagraphConsumes(s);
    }
  }

  lemma PrintLength(m: Message)
    ensures |Print(m)| == |PrintHeaders(m.headers)| + 2 + |m.body|
    ensures m.headers != [] ==> |PrintHeaders(m.headers)| > 0
  {
  }

  lemma EmptyParagraphFirst(m: Message, tail: bytes)
    requires m.headers == []
    ensures ReadBody([], [] + Print(m) + tail) != Got(m.body, tail)
  {
    var rest := m.body + [LF] + tail;
    assert [] + Print(m) + tail == [LF] + rest;
    ParagraphEnds([LF] + rest, rest);
    assert |rest| > |tail|;
  }

  lemma TooMuchConsumed(hs: seq<Header>, s: bytes, body: bytes, tail: bytes)
    requires |s| > |body| + 2 + |tail|
    ensures ReadBody(hs, s) != Got(body, tail)
  {
    if ReadBody(hs, s).Got? {
      BodyConsumes(hs, s);
    }
  }

  /** Torn in its body, a message takes bytes from the next one. */
  lemma BodySpoiled(q: bytes, m: Message, tail: bytes)
    requires WellFormed(m)
    ensures ReadBody(m.headers, q + Print(m) + tail) != Got(m.body, tail)
  {
    PrintLength(m);
    if q == [] && m.headers == [] {
      EmptyParagraphFirst(m, tail);
    } else {
      TooMuchConsumed(m.headers, q + Print(m) + tail, m.body, tail);
    }
  }

  lemma Regrouped(frag: bytes, m: Message, tail: bytes)
    ensures frag + Print(m) + tail == Glued(frag, m.headers, m.body + [LF] + tail)
  {
  }

  lemma TornInHeaders(frag: bytes, torn: Message, m: Message, tail: bytes)
    requires WellFormed(torn) && WellFormed(m) && frag != [] && frag <= PrintHeaders(torn.headers)
    ensures ReadMessage(frag + Print(m) + tail) != Got(m, tail)
  {
    HeadersSpoiled(torn.headers, frag, m.headers, m.body + [LF] + tail);
    Regrouped(frag, m, tail);
  }

  lemma TornInBody(q: bytes, gs: seq<Header>, m: Message, tail: bytes)
    requires GoodHeaders(gs) && WellFormed(m)
    ensures ReadMessage(PrintHeaders(gs) + [LF] + (q + Print(m) + tail)) != Got(m, tail)
  {
    HeadersRoundTrip(gs, q + Print(m) + tail);
    if gs == m.headers {
      BodySpoiled(q, m, tail);
    }
  }

  /** Where a printed message can be torn: within its header block, or behind it. */
  lemma WhereTorn(frag: bytes, m: Message, t: bytes)
    requires Print(m) == frag + t
    ensures frag <= PrintHeaders(m.headers)
         || (|frag| > |PrintHeaders(m.headers)|
             && frag == PrintHeaders(m.headers) + [LF] + frag[|PrintHeaders(m.headers)| + 1..])
  {
    var head := PrintHeaders(m.headers) + [LF];
    assert Print(m) == head + (m.body + [LF]);
    assert frag == Print(m)[..|frag|];
    if |frag| < |head| {
      assert frag == head[..|frag|] == PrintHeaders(m.headers)[..|frag|];
    } else {
      WholeFirst(head, m.body + [LF], frag);
    }
  }

  lemma Reassociate(a: bytes, q: bytes, p: bytes, tail: bytes)
    ensures a + q + p + tail == a + (q + p + tail)
  {
  }

  lemma NothingLeft(m: Message, tail: bytes)
    requires WellFormed(m)
    ensures ReadMessage([] + Print(m) + tail) == Got(m, tail)
  {
    assert [] + Print(m) == Print(m);
    RoundTrip(m, tail);
  }

  lemma SomethingLeft(frag: bytes, torn: Message, t: bytes, m: Message, tail: bytes)
    requires PartOf(frag, torn, t) && frag != [] && WellFormed(m)
    ensures ReadMessage(frag + Print(m) + tail) != Got(m, tail)
  {
    WhereTorn(frag, torn, t);
    if frag <= PrintHeaders(torn.headers) {
      TornInHeaders(frag, torn, m, tail);
    } else {
      TornBehindHeaders(frag, torn.headers, m, tail);
    }
  }

  /** Behind what a failed write left, the next message is read as it was written exactly if nothing was left. */
  lemma NextReadExactly(frag: bytes, m: Message, tail: bytes)
    requires Fragment(frag) && WellFormed(m)
    ensures ReadMessage(frag + Print(m) + tail) == Got(m, tail) <==> frag == []
  {
    if frag == [] {
      NothingLeft(m, tail);
    } else {
      var torn, t :| PartOf(frag, torn, t);
      SomethingLeft(frag, torn, t, m, tail);
    }
  }

  lemma TornBehindHeaders(frag: bytes, gs: seq<Header>, m: Message, tail: bytes)
    requires GoodHeaders(gs) && WellFormed(m) && |frag| > |PrintHeaders(gs)|
    requires frag == PrintHeaders(gs) + [LF] + frag[|PrintHeaders(gs)| + 1..]
    ensures ReadMessage(frag + Print(m) + tail) != Got(m, tail)
  {
    var head, q := PrintHeaders(gs) + [LF], frag[|PrintHeaders(gs)| + 1..];
    Reassociate(head, q, Print(m), tail);
    TornInBody(q, gs, m, tail);
  }
}
