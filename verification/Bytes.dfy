/**
 Octet strings and the small text functions every reader and printer of the protocol shares:
 trimming, searching for a byte, and decimal numerals.

 An octet is a `char` here, so that names such as "Content-Length" can be written as literals. Nothing
 depends on the alphabet being bounded: a statement about every sequence covers every octet string.
 */
module Bytes {
  type byte = char
  type bytes = seq<byte>

  const LF: byte := '\n'
  const CR: byte := '\r'
  const COLON: byte := ':'

  /** The ASCII white space of Go's `bytes.TrimSpace`, of JavaScript's and of PCRE's `\s`. */
  predicate IsSpace(c: byte) {
    c in {' ', '\t', LF, CR, '\U{0B}', '\U{0C}'}
  }

  function TrimLeft(blank: byte -> bool, s: bytes): bytes {
    if s != [] && blank(s[0]) then TrimLeft(blank, s[1..]) else s
  }

  function TrimRight(blank: byte -> bool, s: bytes): bytes {
    if s != [] && blank(s[|s| - 1]) then TrimRight(blank, s[..|s| - 1]) else s
  }

  function Trim(blank: byte -> bool, s: bytes): bytes {
    TrimLeft(blank, TrimRight(blank, s))
  }

  /** Nothing to trim at either end. */
  predicate Tight(blank: byte -> bool, s: bytes) {
    s == [] || (!blank(s[0]) && !blank(s[|s| - 1]))
  }

  predicate AllBlank(blank: byte -> bool, s: bytes) {
    forall i | 0 <= i < |s| :: blank(s[i])
  }

  lemma {:induction false} TrimLeftSkips(blank: byte -> bool, pad: bytes, s: bytes)
    requires AllBlank(blank, pad)
    requires s == [] || !blank(s[0])
    ensures TrimLeft(blank, pad + s) == s
  {
    if pad == [] {
      assert pad + s == s;
    } else {
      assert (pad + s)[1..] == pad[1..] + s;
      TrimLeftSkips(blank, pad[1..], s);
    }
  }

  lemma {:induction false} TrimRightSkips(blank: byte -> bool, s: bytes, pad: bytes)
    requires AllBlank(blank, pad)
    requires s == [] || !blank(s[|s| - 1])
    ensures TrimRight(blank, s + pad) == s
  {
    if pad == [] {
      assert s + pad == s;
    } else {
      assert (s + pad)[..|s + pad| - 1] == s + pad[..|pad| - 1];
      TrimRightSkips(blank, s, pad[..|pad| - 1]);
    }
  }

  /** Trimming recovers a tight string from any blank padding. */
  lemma TrimPadded(blank: byte -> bool, before: bytes, s: bytes, after: bytes)
    requires AllBlank(blank, before) && AllBlank(blank, after)
    requires Tight(blank, s)
    ensures Trim(blank, before + s + after) == s
  {
    if s == [] {
      assert before + s + after == [] + (before + after);
      TrimRightSkips(blank, [], before + after);
    } else {
      TrimRightSkips(blank, before + s, after);
      TrimLeftSkips(blank, before, s);
    }
  }

  lemma TrimAfter(blank: byte -> bool, s: bytes, after: bytes)
    requires AllBlank(blank, after) && Tight(blank, s)
    ensures Trim(blank, s + after) == s
  {
    TrimPadded(blank, [], s, after);
    assert [] + s + after == s + after;
  }

  lemma {:induction false} TrimLeftShape(blank: byte -> bool, s: bytes)
    ensures exists k :: 0 <= k <= |s| && TrimLeft(blank, s) == s[k..]
    ensures TrimLeft(blank, s) == [] || !blank(TrimLeft(blank, s)[0])
  {
    if s != [] && blank(s[0]) {
      TrimLeftShape(blank, s[1..]);
      var k :| 0 <= k <= |s[1..]| && TrimLeft(blank, s[1..]) == s[1..][k..];
      assert s[1..][k..] == s[k + 1..];
    } else {
      assert s[0..] == s;
    }
  }

  lemma {:induction false} TrimRightShape(blank: byte -> bool, s: bytes)
    ensures exists k :: 0 <= k <= |s| && TrimRight(blank, s) == s[..k]
    ensures TrimRight(blank, s) == [] || !blank(TrimRight(blank, s)[|TrimRight(blank, s)| - 1])
  {
    if s != [] && blank(s[|s| - 1]) {
      var t := s[..|s| - 1];
      TrimRightShape(blank, t);
      var k :| 0 <= k <= |t| && TrimRight(blank, t) == t[..k];
      assert t[..k] == s[..k];
    } else {
      assert s[..|s|] == s;
    }
  }

  lemma TrimNothing(blank: byte -> bool, s: bytes)
    requires Tight(blank, s)
    ensures Trim(blank, s) == s
  {
    TrimPadded(blank, [], s, []);
    assert [] + s + [] == s;
  }

  /** What `Trim` returns is tight and is a stretch of its argument. */
  lemma TrimTight(blank: byte -> bool, s: bytes)
    ensures Tight(blank, Trim(blank, s))
    ensures exists i, j :: 0 <= i <= j <= |s| && Trim(blank, s) == s[i..j]
  {
    TrimRightShape(blank, s);
    var j :| 0 <= j <= |s| && TrimRight(blank, s) == s[..j];
    TrimLeftShape(blank, s[..j]);
    var i :| 0 <= i <= j && TrimLeft(blank, s[..j]) == s[..j][i..];
    assert s[..j][i..] == s[i..j];
  }

  /** The position of the first `c`, or -1. */
  function IndexOf(s: bytes, c: byte): (i: int)
    ensures -1 <= i < |s|
    ensures i == -1 <==> c !in s
    ensures i >= 0 ==> s[i] == c && c !in s[..i]
  {
    if s == [] then -1
    else if s[0] == c then 0
    else
      var r := IndexOf(s[1..], c);
      assert s == [s[0]] + s[1..];
      if r == -1 then -1 else
      assert s[..r + 1] == [s[0]] + s[1..][..r];
      r + 1
  }

  lemma {:induction false} IndexOfFirst(before: bytes, c: byte, after: bytes)
    requires c !in before
    ensures IndexOf(before + [c] + after, c) == |before|
  {
    if before != [] {
      assert (before + [c] + after)[1..] == before[1..] + [c] + after;
      IndexOfFirst(before[1..], c, after);
    }
  }

  /** Cutting at the first `c` gives back what was put around it. */
  lemma CutAtFirst(s: bytes, a: bytes, c: byte, b: bytes)
    requires s == a + [c] + b && c !in a
    ensures IndexOf(s, c) == |a| < |s| && s[..|a|] == a && s[|a| + 1..] == b
  {
    IndexOfFirst(a, c, b);
  }

  // ---------------------------------------------------------------- decimal numerals

  predicate IsDigit(c: byte) {
    '0' <= c <= '9'
  }

  function DigitOf(d: nat): (c: byte)
    requires d < 10
    ensures IsDigit(c) && DigitValue(c) == d
  {
    '0' + d as char
  }

  function DigitValue(c: byte): (d: nat)
    requires IsDigit(c)
    ensures d < 10
  {
    c as int - '0' as int
  }

  predicate AllDigits(s: bytes) {
    forall i | 0 <= i < |s| :: IsDigit(s[i])
  }

  /** The numeral printed by `%d`, `strconv.Itoa`, `strval` and `toString`. */
  function Decimal(n: nat): (s: bytes)
    ensures |s| > 0 && AllDigits(s)
  {
    if n < 10 then [DigitOf(n)] else Decimal(n / 10) + [DigitOf(n % 10)]
  }

  function DecimalValue(s: bytes): nat
    requires AllDigits(s)
  {
    if s == [] then 0 else DecimalValue(s[..|s| - 1]) * 10 + DigitValue(s[|s| - 1])
  }

  lemma {:induction false} DecimalRoundTrip(n: nat)
    ensures DecimalValue(Decimal(n)) == n
  {
    if n < 10 {
      assert Decimal(n)[..0] == [];
    } else {
      DecimalRoundTrip(n / 10);
      assert Decimal(n)[..|Decimal(n)| - 1] == Decimal(n / 10);
    }
  }

  /** Distinct numbers print as distinct numerals, also behind a common prefix. */
  lemma DecimalInjective(prefix: bytes, m: nat, n: nat)
    requires prefix + Decimal(m) == prefix + Decimal(n)
    ensures m == n
  {
    assert (prefix + Decimal(m))[|prefix|..] == Decimal(m);
    assert (prefix + Decimal(n))[|prefix|..] == Decimal(n);
    DecimalRoundTrip(m);
    DecimalRoundTrip(n);
  }

  const DIGITS: bytes := "0123456789"

  /** What a numeral is: one digit for a small number, and one more digit for every further power of ten. */
  lemma DecimalMeaning(n: nat, d: nat)
    requires d < 10
    ensures Decimal(d) == [DIGITS[d]]
    ensures n > 0 ==> Decimal(10 * n + d) == Decimal(n) + [DIGITS[d]]
  {
    assert DIGITS[d] as int == '0' as int + d;
    assert (10 * n + d) / 10 == n && (10 * n + d) % 10 == d;
  }

  const TWO_64: nat := 0x1_0000_0000_0000_0000

  /** `strconv.ParseUint(s, 10, 64)` with its error dropped: 0 on bad syntax, the maximum when out of range. */
  function ParseUint(s: bytes): (n: nat)
    ensures n < TWO_64
  {
    if s == [] || !AllDigits(s) then 0
    else if DecimalValue(s) < TWO_64 then DecimalValue(s)
    else TWO_64 - 1
  }

  lemma DigitsAre(c: byte)
    ensures IsDigit(c) <==> c in DIGITS
  {
    if IsDigit(c) {
      assert DIGITS[c as int - '0' as int] == c;
    }
  }

  predicate AllZeros(s: bytes) {
    forall i | 0 <= i < |s| :: s[i] == '0'
  }

  /** Leading zeros do not count. */
  lemma {:induction false} LeadingZeros(zeros: bytes, s: bytes)
    requires AllZeros(zeros) && AllDigits(s)
    ensures AllDigits(zeros + s) && DecimalValue(zeros + s) == DecimalValue(s)
    decreases |s|, |zeros|
  {
    var all := zeros + s;
    if s != [] {
      assert all[..|all| - 1] == zeros + s[..|s| - 1];
      LeadingZeros(zeros, s[..|s| - 1]);
    } else if zeros != [] {
      var fewer := zeros[..|zeros| - 1];
      assert all == zeros && fewer + s == fewer;
      LeadingZeros(fewer, s);
    } else {
      assert all == s;
    }
  }

  /** A numeral of any length gives its number, capped; anything that is not one gives zero. */
  lemma ParseUintMeaning(zeros: bytes, n: nat, s: bytes)
    requires AllZeros(zeros)
    ensures ParseUint(zeros + Decimal(n)) == if n < TWO_64 then n else TWO_64 - 1
    ensures s == [] || (exists c :: c in s && c !in DIGITS) ==> ParseUint(s) == 0
  {
    LeadingZeros(zeros, Decimal(n));
    DecimalRoundTrip(n);
    if c :| c in s && c !in DIGITS {
      DigitsAre(c);
    }
  }
}
