/**
 Header names as JavaScript and PHP make them canonical: split at runs of `-`, `_` and white space, capitalise
 each part, join with `-` (js/src/utilities.ts, php/Interop/Header.php), on ASCII letters.
 */
module Keys {
  import opened Bytes
  import opened Headers

  predicate IsSeparator(c: byte) {
    c == '-' || c == '_' || IsSpace(c)
  }

  function DropSeparators(s: bytes): (r: bytes)
    ensures |r| <= |s|
    ensures r == [] || !IsSeparator(r[0])
    ensures s != [] && IsSeparator(s[0]) ==> |r| < |s|
  {
    if s != [] && IsSeparator(s[0]) then DropSeparators(s[1..]) else s
  }

  /** `split(/[-_\s]+/)`: the parts between maximal separator runs; there is always at least one. */
  function Split(s: bytes): (parts: seq<bytes>)
    ensures |parts| > 0
    decreases |s|
  {
    if s == [] then [[]]
    else if IsSeparator(s[0]) then [[]] + Split(DropSeparators(s))
    else
      var parts := Split(s[1..]);
      [[s[0]] + parts[0]] + parts[1..]
  }

  function Capitalise(part: bytes): bytes {
    if part == [] then [] else [Upper(part[0])] + LowerAll(part[1..])
  }

  function CapitaliseAll(parts: seq<bytes>): (r: seq<bytes>)
    ensures |r| == |parts| && forall i | 0 <= i < |parts| :: r[i] == Capitalise(parts[i])
  {
    if parts == [] then [] else [Capitalise(parts[0])] + CapitaliseAll(parts[1..])
  }

  function Join(parts: seq<bytes>): bytes {
    if parts == [] then [] else if |parts| == 1 then parts[0] else parts[0] + "-" + Join(parts[1..])
  }

  function CanonicalizeKey(key: bytes): bytes {
    Join(CapitaliseAll(Split(key)))
  }

  // ---------------------------------------------------------------- splitting undoes joining

  predicate SeparatorFree(s: bytes) {
    forall i | 0 <= i < |s| :: !IsSeparator(s[i])
  }

  /** The shape of what `Split` returns: only the first and the last part can be empty. */
  predicate Proper(parts: seq<bytes>) {
    && |parts| > 0
    && (forall i | 0 <= i < |parts| :: SeparatorFree(parts[i]))
    && (forall i | 0 < i < |parts| - 1 :: parts[i] != [])
  }

  lemma {:induction false} SplitIsProper(s: bytes)
    ensures Proper(Split(s))
    ensures s != [] && !IsSeparator(s[0]) ==> Split(s)[0] != []
    decreases |s|
  {
    if s == [] {
    } else if IsSeparator(s[0]) {
      var t := DropSeparators(s);
      SplitIsProper(t);
      assert t == [] ==> Split(t) == [[]];
    } else {
      SplitIsProper(s[1..]);
    }
  }

  lemma {:induction false} SplitPlain(part: bytes, rest: bytes)
    requires SeparatorFree(part)
    ensures Split(part + rest) == [part + Split(rest)[0]] + Split(rest)[1..]
  {
    if part == [] {
      assert part + rest == rest && part + Split(rest)[0] == Split(rest)[0];
      assert Split(rest) == [Split(rest)[0]] + Split(rest)[1..];
    } else {
      assert (part + rest)[1..] == part[1..] + rest;
      SplitPlain(part[1..], rest);
      assert part == [part[0]] + part[1..];
      assert [part[0]] + (part[1..] + Split(rest)[0]) == part + Split(rest)[0];
    }
  }

  lemma {:induction false} SplitJoin(parts: seq<bytes>)
    requires Proper(parts)
    ensures Split(Join(parts)) == parts
    decreases |parts|
  {
    if |parts| == 1 {
      SplitPlain(parts[0], []);
      assert parts[0] + [] == parts[0];
    } else {
      var rest := Join(parts[1..]);
      SplitJoin(parts[1..]);
      assert rest == [] || !IsSeparator(rest[0]) by {
        if |parts| == 2 {
          assert rest == parts[1];
        } else {
          assert rest == parts[1] + "-" + Join(parts[2..]) && parts[1] != [];
          assert rest[0] == parts[1][0];
        }
      }
      assert DropSeparators("-" + rest) == DropSeparators(rest) == rest by {
        assert ("-" + rest)[1..] == rest;
      }
      SplitPlain(parts[0], "-" + rest);
      assert Join(parts) == parts[0] + ("-" + rest);
      assert parts[0] + [] == parts[0];
      assert parts == [parts[0]] + parts[1..];
    }
  }

  // ---------------------------------------------------------------- the laws of CanonicalizeKey

  lemma LetterCase(c: byte)
    ensures Upper(Upper(c)) == Upper(c) == Upper(Lower(c)) && Lower(Lower(c)) == Lower(c)
    ensures IsSeparator(Upper(c)) == IsSeparator(c) == IsSeparator(Lower(c))
  {
  }

  lemma LowerTwice(s: bytes)
    ensures LowerAll(LowerAll(s)) == LowerAll(s)
    ensures SeparatorFree(s) ==> SeparatorFree(LowerAll(s))
  {
    forall i | 0 <= i < |s|
      ensures Lower(Lower(s[i])) == Lower(s[i]) && IsSeparator(Lower(s[i])) == IsSeparator(s[i])
    {
      LetterCase(s[i]);
    }
  }

  lemma CapitaliseTwice(part: bytes)
    ensures Capitalise(Capitalise(part)) == Capitalise(part)
    ensures Capitalise(LowerAll(part)) == Capitalise(part)
  {
    if part != [] {
      LetterCase(part[0]);
      LowerTwice(part[1..]);
      assert Capitalise(part)[1..] == LowerAll(part[1..]);
      assert LowerAll(part)[1..] == LowerAll(part[1..]);
    }
  }

  lemma CapitaliseKeepsFree(part: bytes)
    requires SeparatorFree(part)
    ensures SeparatorFree(Capitalise(part))
  {
    if part != [] {
      LetterCase(part[0]);
      LowerTwice(part[1..]);
      assert !IsSeparator(part[0]);
    }
  }

  lemma CapitaliseEmpty(part: bytes)
    ensures (Capitalise(part) == []) == (part == [])
  {
  }

  lemma CapitaliseFacts(part: bytes)
    ensures Capitalise(Capitalise(part)) == Capitalise(part)
    ensures Capitalise(LowerAll(part)) == Capitalise(part)
    ensures (Capitalise(part) == []) == (part == [])
    ensures SeparatorFree(part) ==> SeparatorFree(Capitalise(part))
  {
    CapitaliseTwice(part);
    CapitaliseEmpty(part);
    if SeparatorFree(part) {
      CapitaliseKeepsFree(part);
    }
  }

  lemma CapitalisedIsProper(parts: seq<bytes>)
    requires Proper(parts)
    ensures Proper(CapitaliseAll(parts))
    ensures CapitaliseAll(CapitaliseAll(parts)) == CapitaliseAll(parts)
  {
    forall i | 0 <= i < |parts|
      ensures SeparatorFree(Capitalise(parts[i])) && (Capitalise(parts[i]) == []) == (parts[i] == [])
      ensures Capitalise(Capitalise(parts[i])) == Capitalise(parts[i])
    {
      CapitaliseFacts(parts[i]);
    }
  }

  /** A canonical key is a fixed point. */
  lemma CanonicalizeIdempotent(key: bytes)
    ensures CanonicalizeKey(CanonicalizeKey(key)) == CanonicalizeKey(key)
  {
    SplitIsProper(key);
    CapitalisedIsProper(Split(key));
    SplitJoin(CapitaliseAll(Split(key)));
  }

  lemma {:induction false} LowerConcat(a: bytes, b: bytes)
    ensures LowerAll(a + b) == LowerAll(a) + LowerAll(b)
  {
    var s, t := LowerAll(a + b), LowerAll(a) + LowerAll(b);
    assert |s| == |t| && forall i | 0 <= i < |s| :: s[i] == t[i];
  }

  lemma {:induction false} SplitLower(s: bytes)
    ensures |Split(LowerAll(s))| == |Split(s)|
    ensures forall i | 0 <= i < |Split(s)| :: Split(LowerAll(s))[i] == LowerAll(Split(s)[i])
    decreases |s|
  {
    if s == [] {
    } else if IsSeparator(s[0]) {
      DropLower(s);
      SplitLower(DropSeparators(s));
    } else {
      SplitLower(s[1..]);
      assert LowerAll(s)[1..] == LowerAll(s[1..]);
      var first := Split(s[1..])[0];
      LetterCase(s[0]);
      LowerConcat([s[0]], first);
    }
  }

  lemma {:induction false} DropLower(s: bytes)
    ensures DropSeparators(LowerAll(s)) == LowerAll(DropSeparators(s))
  {
    if s != [] && IsSeparator(s[0]) {
      assert LowerAll(s)[1..] == LowerAll(s[1..]);
      DropLower(s[1..]);
    }
  }

  /** Letter case does not matter. */
  lemma CanonicalizeIgnoresCase(a: bytes, b: bytes)
    requires LowerAll(a) == LowerAll(b)
    ensures CanonicalizeKey(a) == CanonicalizeKey(b)
  {
    SplitLower(a);
    SplitLower(b);
    forall i | 0 <= i < |Split(a)| ensures Capitalise(Split(a)[i]) == Capitalise(Split(b)[i]) {
      CapitaliseFacts(Split(a)[i]);
      CapitaliseFacts(Split(b)[i]);
    }
    assert CapitaliseAll(Split(a)) == CapitaliseAll(Split(b));
  }

  predicate SeparatorRun(run: bytes) {
    run != [] && forall i | 0 <= i < |run| :: IsSeparator(run[i])
  }

  lemma {:induction false} DropRun(run: bytes, s: bytes)
    requires forall i | 0 <= i < |run| :: IsSeparator(run[i])
    ensures DropSeparators(run + s) == DropSeparators(s)
  {
    if run == [] {
      assert run + s == s;
    } else {
      assert (run + s)[1..] == run[1..] + s;
      DropRun(run[1..], s);
    }
  }

  lemma {:induction false} DropBefore(s: bytes, t: bytes)
    requires DropSeparators(s) != []
    ensures DropSeparators(s + t) == DropSeparators(s) + t
  {
    if IsSeparator(s[0]) {
      assert (s + t)[1..] == s[1..] + t;
      DropBefore(s[1..], t);
    }
  }

  lemma {:induction false} DropNothing(s: bytes)
    requires DropSeparators(s) == []
    ensures forall i | 0 <= i < |s| :: IsSeparator(s[i])
  {
    if s != [] {
      DropNothing(s[1..]);
    }
  }

  lemma {:induction false} SplitIgnoresRuns(before: bytes, run: bytes, run': bytes, after: bytes)
    requires SeparatorRun(run) && SeparatorRun(run')
    ensures Split(before + run + after) == Split(before + run' + after)
    decreases |before|
  {
    var s, s' := before + run + after, before + run' + after;
    if before == [] {
      assert s == run + after && s' == run' + after;
      DropRun(run, after);
      DropRun(run', after);
    } else if IsSeparator(before[0]) {
      var more := DropSeparators(before);
      assert s == before + (run + after) && s' == before + (run' + after);
      if more == [] {
        DropNothing(before);
        DropRun(before, run + after);
        DropRun(before, run' + after);
        DropRun(run, after);
        DropRun(run', after);
      } else {
        DropBefore(before, run + after);
        DropBefore(before, run' + after);
        assert more + (run + after) == more + run + after && more + (run' + after) == more + run' + after;
        SplitIgnoresRuns(more, run, run', after);
      }
    } else {
      assert s[1..] == before[1..] + run + after && s'[1..] == before[1..] + run' + after;
      SplitIgnoresRuns(before[1..], run, run', after);
    }
  }

  /** Which separators a name uses, and how many in a row, does not matter. */
  lemma CanonicalizeIgnoresRuns(before: bytes, run: bytes, run': bytes, after: bytes)
    requires SeparatorRun(run) && SeparatorRun(run')
    ensures CanonicalizeKey(before + run + after) == CanonicalizeKey(before + run' + after)
  {
    SplitIgnoresRuns(before, run, run', after);
  }

  lemma {:induction false} JoinIsSpaceFree(parts: seq<bytes>)
    requires forall i | 0 <= i < |parts| :: SeparatorFree(parts[i])
    ensures forall c | c in Join(parts) :: !IsSpace(c)
  {
    if |parts| > 1 {
      JoinIsSpaceFree(parts[1..]);
    }
  }

  /** No white space survives in a canonical key. */
  lemma CanonicalKeysHaveNoSpace(key: bytes)
    ensures forall c | c in CanonicalizeKey(key) :: !IsSpace(c)
  {
    SplitIsProper(key);
    CapitalisedIsProper(Split(key));
    JoinIsSpaceFree(CapitaliseAll(Split(key)));
  }

  /** One capital, then no capitals, and no separator. */
  predicate IsWord(part: bytes) {
    && part != [] && 'A' <= part[0] <= 'Z'
    && forall i | 1 <= i < |part| :: 'a' <= part[i] <= 'z'
  }

  lemma WordIsFixed(part: bytes)
    requires IsWord(part)
    ensures Capitalise(part) == part && SeparatorFree(part)
  {
    assert LowerAll(part[1..]) == part[1..];
    assert part == [part[0]] + part[1..];
  }

  lemma TwoWordsAreFixed(a: bytes, b: bytes)
    requires IsWord(a) && IsWord(b)
    ensures CanonicalizeKey(a + "-" + b) == a + "-" + b
  {
    var parts := [a, b];
    WordIsFixed(a);
    WordIsFixed(b);
    assert parts[1..] == [b];
    assert Join(parts) == a + "-" + b;
    SplitJoin(parts);
    assert CapitaliseAll(parts) == parts;
  }

  /** The length header's name is a fixed point here as it is in Go. */
  lemma LengthNameIsCanonical()
    ensures CanonicalizeKey(LENGTH_NAME) == LENGTH_NAME
  {
    var a: bytes, b: bytes := "Content", "Length";
    assert LENGTH_NAME == a + "-" + b;
    TwoWordsAreFixed(a, b);
  }

  // ---------------------------------------------------------------- what the canonical key is

  /** The key with one hyphen for every run of separators. */
  function Squeeze(s: bytes): (r: bytes)
    ensures |r| <= |s|
  {
    if s == [] then []
    else if !IsSeparator(s[0]) then [s[0]] + Squeeze(s[1..])
    else if |s| > 1 && IsSeparator(s[1]) then Squeeze(s[1..])
    else "-" + Squeeze(s[1..])
  }

  lemma {:induction false} SqueezeRun(s: bytes)
    requires s != [] && IsSeparator(s[0])
    ensures Squeeze(s) == "-" + Squeeze(DropSeparators(s))
  {
    if |s| > 1 && IsSeparator(s[1]) {
      SqueezeRun(s[1..]);
    }
  }

  lemma JoinOnto(c: byte, parts: seq<bytes>)
    requires parts != []
    ensures Join([[c] + parts[0]] + parts[1..]) == [c] + Join(parts)
  {
    var all := [[c] + parts[0]] + parts[1..];
    assert all[1..] == parts[1..];
    if |parts| > 1 {
      assert [c] + parts[0] + "-" + Join(parts[1..]) == [c] + (parts[0] + "-" + Join(parts[1..]));
    }
  }

  lemma {:induction false} JoinSplit(s: bytes)
    ensures Join(Split(s)) == Squeeze(s)
    decreases |s|
  {
    if s == [] {
    } else if IsSeparator(s[0]) {
      var rest := Split(DropSeparators(s));
      JoinSplit(DropSeparators(s));
      SqueezeRun(s);
      assert ([[]] + rest)[1..] == rest;
    } else {
      JoinSplit(s[1..]);
      JoinOnto(s[0], Split(s[1..]));
    }
  }

  lemma {:induction false} RecaseWord(part: bytes, up: bool)
    requires SeparatorFree(part)
    ensures Recase(part, up) == if up then Capitalise(part) else LowerAll(part)
  {
    if part != [] {
      assert part[0] != '-';
      RecaseWord(part[1..], false);
    }
  }

  lemma {:induction false} RecaseAcross(part: bytes, rest: bytes, up: bool)
    requires SeparatorFree(part)
    ensures Recase(part + "-" + rest, up) == Recase(part, up) + "-" + Recase(rest, true)
  {
    var s := part + "-" + rest;
    if part == [] {
      assert s == "-" + rest && s[1..] == rest;
    } else {
      assert s[1..] == part[1..] + "-" + rest && s[0] == part[0] != '-';
      RecaseAcross(part[1..], rest, false);
    }
  }

  lemma {:induction false} RecaseJoin(parts: seq<bytes>)
    requires forall i | 0 <= i < |parts| :: SeparatorFree(parts[i])
    ensures Recase(Join(parts), true) == Join(CapitaliseAll(parts))
  {
    if parts != [] {
      RecaseWord(parts[0], true);
      if |parts| > 1 {
        RecaseAcross(parts[0], Join(parts[1..]), true);
        RecaseJoin(parts[1..]);
        assert CapitaliseAll(parts)[1..] == CapitaliseAll(parts[1..]);
      }
    }
  }

  /** The same text up to case with one hyphen for every run of separators, each letter in the case Go gives it. */
  lemma CanonicalizeMeaning(key: bytes)
    ensures CanonicalizeKey(key) == Recase(Squeeze(key), true)
    ensures LowerAll(CanonicalizeKey(key)) == LowerAll(Squeeze(key)) && Cased(CanonicalizeKey(key), true)
  {
    SplitIsProper(key);
    JoinSplit(key);
    RecaseJoin(Split(key));
    RecaseKeepsText(Squeeze(key), true);
    RecaseIsCased(Squeeze(key), true);
  }

  /** A key never grows. */
  lemma CanonicalizeShrinks(key: bytes)
    ensures |CanonicalizeKey(key)| <= |key|
  {
    CanonicalizeMeaning(key);
  }

  /** Two keys name the same header exactly if they differ in case and in their separator runs at most. */
  lemma CanonicalizeExactly(a: bytes, b: bytes)
    ensures CanonicalizeKey(a) == CanonicalizeKey(b) <==> LowerAll(Squeeze(a)) == LowerAll(Squeeze(b))
  {
    CanonicalizeMeaning(a);
    CanonicalizeMeaning(b);
    if LowerAll(Squeeze(a)) == LowerAll(Squeeze(b)) {
      RecaseIgnoresCase(Squeeze(a), Squeeze(b), true);
    }
  }

  /** No separator but single hyphens. */
  predicate Hyphenated(s: bytes) {
    forall i | 0 <= i < |s| && IsSeparator(s[i]) :: s[i] == '-' && (i + 1 < |s| ==> !IsSeparator(s[i + 1]))
  }

  lemma {:induction false} SqueezeKeeps(s: bytes)
    requires Hyphenated(s)
    ensures Squeeze(s) == s
  {
    if s != [] {
      SqueezeKeeps(s[1..]);
      assert s == [s[0]] + s[1..];
    }
  }

  lemma {:induction false} SqueezeChanges(s: bytes)
    requires LowerAll(Squeeze(s)) == LowerAll(s)
    ensures Hyphenated(s)
  {
    if s != [] {
      assert |Squeeze(s)| == |s|;
      var r, t := Squeeze(s), s[1..];
      assert r[1..] == Squeeze(t);
      assert LowerAll(r)[1..] == LowerAll(r[1..]) && LowerAll(s)[1..] == LowerAll(t);
      SqueezeChanges(t);
      assert Lower(r[0]) == LowerAll(r)[0] == LowerAll(s)[0] == Lower(s[0]);
      forall i | 0 <= i < |s| && IsSeparator(s[i]) ensures s[i] == '-' && (i + 1 < |s| ==> !IsSeparator(s[i + 1])) {
        if i > 0 {
          assert t[i - 1] == s[i];
        }
      }
    }
  }

  /** JavaScript and Go make the same of a token exactly if its only separators are single hyphens. */
  lemma GoAgreesExactly(name: bytes)
    requires IsToken(name)
    ensures CanonicalizeKey(name) == Canonical(name) <==> Hyphenated(name)
  {
    CanonicalizeMeaning(name);
    CanonicalMeaning(name);
    if Hyphenated(name) {
      SqueezeKeeps(name);
    } else if LowerAll(Squeeze(name)) == LowerAll(name) {
      SqueezeChanges(name);
    }
  }
}
