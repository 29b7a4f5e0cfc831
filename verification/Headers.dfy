/**
 MIME-style headers of the Go implementation (interop/header.go, interop/headers.go): canonical names
 and the values that `Get`, `GetAll`, `Delete`, `Set` and `Add` give, on sequences.
 The slice-level code is in GoSlices.dfy.
 */
module Headers {
  import opened Bytes

  const ID_NAME: bytes := "Interop-Rpc-Id"
  const ERROR_NAME: bytes := "Interop-Error"
  const LENGTH_NAME: bytes := "Content-Length"

  datatype Header = Header(name: bytes, value: bytes)

  datatype Message = Message(headers: seq<Header>, body: bytes)

  function Upper(c: byte): byte {
    if 'a' <= c <= 'z' then (c as int - 32) as char else c
  }

  function Lower(c: byte): byte {
    if 'A' <= c <= 'Z' then (c as int + 32) as char else c
  }

  function LowerAll(s: bytes): (r: bytes)
    ensures |r| == |s| && forall i | 0 <= i < |s| :: r[i] == Lower(s[i])
  {
    if s == [] then [] else [Lower(s[0])] + LowerAll(s[1..])
  }

  /** The bytes of an RFC 7230 token, `validHeaderFieldByte` of net/textproto. */
  predicate IsTokenByte(c: byte) {
    || IsDigit(c) || 'a' <= c <= 'z' || 'A' <= c <= 'Z'
    || c in {'!', '#', '$', '%', '&', '\'', '*', '+', '-', '.', '^', '_', '`', '|', '~'}
  }

  function Recase(s: bytes, up: bool): (r: bytes)
    ensures |r| == |s|
  {
    if s == [] then []
    else [if up then Upper(s[0]) else Lower(s[0])] + Recase(s[1..], s[0] == '-')
  }

  /** `textproto.CanonicalMIMEHeaderKey`: a name that is not a token is left alone. */
  function Canonical(name: bytes): bytes {
    if forall i | 0 <= i < |name| :: IsTokenByte(name[i]) then Recase(name, true) else name
  }

  lemma {:induction false} RecaseFacts(s: bytes, up: bool)
    requires forall i | 0 <= i < |s| :: IsTokenByte(s[i])
    ensures Recase(Recase(s, up), up) == Recase(s, up)
    ensures forall i | 0 <= i < |s| :: IsTokenByte(Recase(s, up)[i])
  {
    if s != [] {
      RecaseFacts(s[1..], s[0] == '-');
      assert Recase(s, up)[1..] == Recase(s[1..], s[0] == '-');
    }
  }

  /** A name Go would rewrite has only token bytes before and after. */
  lemma CanonicalIsToken(name: bytes)
    ensures Canonical(name) == name || (|Canonical(name)| == |name| && forall c | c in Canonical(name) :: IsTokenByte(c))
  {
    if forall i | 0 <= i < |name| :: IsTokenByte(name[i]) {
      RecaseFacts(name, true);
    }
  }

  /** Canonical names are fixed points, and making a name canonical introduces no colon, line break or space. */
  lemma CanonicalIdempotent(name: bytes)
    ensures Canonical(Canonical(name)) == Canonical(name)
    ensures COLON !in name ==> COLON !in Canonical(name)
    ensures LF !in name ==> LF !in Canonical(name)
    ensures Tight(IsSpace, name) ==> Tight(IsSpace, Canonical(name))
  {
    CanonicalTwice(name);
    CanonicalIsToken(name);
    if Canonical(name) != name {
      TokenIsPlain(Canonical(name));
    }
  }

  lemma CanonicalTwice(name: bytes)
    ensures Canonical(Canonical(name)) == Canonical(name)
  {
    if forall i | 0 <= i < |name| :: IsTokenByte(name[i]) {
      RecaseFacts(name, true);
    }
  }

  lemma TokenIsPlain(name: bytes)
    requires forall c | c in name :: IsTokenByte(c)
    ensures COLON !in name && LF !in name && Tight(IsSpace, name)
  {
    if name != [] {
      assert IsTokenByte(name[0]) && IsTokenByte(name[|name| - 1]);
    }
  }

  // ---------------------------------------------------------------- letter case does not matter

  predicate IsToken(name: bytes) {
    forall i | 0 <= i < |name| :: IsTokenByte(name[i])
  }

  lemma CaseOfByte(a: byte, b: byte)
    ensures Lower(a) == Lower(b) ==> Upper(a) == Upper(b) && IsTokenByte(a) == IsTokenByte(b) && (a == '-' <==> b == '-')
    ensures Lower(Upper(a)) == Lower(a) == Lower(Lower(a))
    ensures !('a' <= Upper(a) <= 'z') && !('A' <= Lower(a) <= 'Z')
    ensures Upper(a) == '-' <==> a == '-'
    ensures Lower(a) == '-' <==> a == '-'
  {
  }

  lemma {:induction false} RecaseIgnoresCase(a: bytes, b: bytes, up: bool)
    requires LowerAll(a) == LowerAll(b)
    ensures Recase(a, up) == Recase(b, up)
  {
    assert |a| == |b|;
    if a != [] {
      assert LowerAll(a)[0] == LowerAll(b)[0];
      CaseOfByte(a[0], b[0]);
      assert LowerAll(a)[1..] == LowerAll(a[1..]) && LowerAll(b)[1..] == LowerAll(b[1..]);
      RecaseIgnoresCase(a[1..], b[1..], a[0] == '-');
    }
  }

  /** Recasing changes the case of letters and nothing else. */
  lemma {:induction false} RecaseKeepsText(s: bytes, up: bool)
    ensures LowerAll(Recase(s, up)) == LowerAll(s)
  {
    if s != [] {
      CaseOfByte(s[0], s[0]);
      RecaseKeepsText(s[1..], s[0] == '-');
      assert Recase(s, up)[1..] == Recase(s[1..], s[0] == '-');
    }
  }

  /** ... and gives every letter the case its position asks for: upper at the start and after a hyphen, else lower. */
  lemma {:induction false} RecaseIsCased(s: bytes, up: bool)
    ensures Cased(Recase(s, up), up)
  {
    if s != [] {
      var r, more := Recase(s, up), Recase(s[1..], s[0] == '-');
      CaseOfByte(s[0], s[0]);
      RecaseIsCased(s[1..], s[0] == '-');
      assert r[1..] == more;
      forall i | 0 <= i < |r| ensures CasedAt(r, up, i) {
        if i > 0 {
          assert CasedAt(more, s[0] == '-', i - 1);
        }
      }
    }
  }

  /** The canonical form of a token is the same text in the protocol's case; any other name is its own. */
  lemma CanonicalMeaning(name: bytes)
    ensures LowerAll(Canonical(name)) == LowerAll(name)
    ensures if IsToken(name) then Cased(Canonical(name), true) else Canonical(name) == name
  {
    RecaseKeepsText(name, true);
    RecaseIsCased(name, true);
  }

  lemma TokenIgnoresCase(a: bytes, b: bytes)
    requires LowerAll(a) == LowerAll(b)
    ensures IsToken(a) <==> IsToken(b)
  {
    assert |a| == |b|;
    forall i | 0 <= i < |a| ensures IsTokenByte(a[i]) == IsTokenByte(b[i]) {
      assert LowerAll(a)[i] == LowerAll(b)[i];
      CaseOfByte(a[i], b[i]);
    }
  }

  /** Two tokens name the same header exactly if they differ in letter case at most. */
  lemma CanonicalExactly(a: bytes, b: bytes)
    requires IsToken(a)
    ensures Canonical(a) == Canonical(b) <==> LowerAll(a) == LowerAll(b)
  {
    CanonicalMeaning(a);
    CanonicalMeaning(b);
    if LowerAll(a) == LowerAll(b) {
      TokenIgnoresCase(a, b);
      RecaseIgnoresCase(a, b, true);
    }
  }

  /** `Get`, `GetAll` and `Delete` do not depend on the case of the name. */
  lemma LookupIgnoresCase(hs: seq<Header>, a: bytes, b: bytes)
    requires IsToken(a) && LowerAll(a) == LowerAll(b)
    ensures Get(hs, a) == Get(hs, b) && GetAll(hs, a) == GetAll(hs, b) && Delete(hs, a) == Delete(hs, b)
  {
    CanonicalExactly(a, b);
  }

  /** The letter at `i` already has the case its position asks for. */
  predicate CasedAt(s: bytes, up: bool, i: nat)
    requires i < |s|
  {
    if (if i == 0 then up else s[i - 1] == '-') then !('a' <= s[i] <= 'z') else !('A' <= s[i] <= 'Z')
  }

  predicate Cased(s: bytes, up: bool) {
    forall i | 0 <= i < |s| :: CasedAt(s, up, i)
  }

  lemma {:induction false} CasedIsFixed(s: bytes, up: bool)
    requires Cased(s, up)
    ensures Recase(s, up) == s
  {
    if s != [] {
      var t, next := s[1..], s[0] == '-';
      forall i | 0 <= i < |t| ensures CasedAt(t, next, i) {
        assert CasedAt(s, up, i + 1);
      }
      CasedIsFixed(t, next);
      assert CasedAt(s, up, 0);
      assert s == [s[0]] + s[1..];
    }
  }

  lemma CasedTokenIsCanonical(name: bytes)
    requires Cased(name, true)
    requires forall i | 0 <= i < |name| :: IsTokenByte(name[i])
    ensures Canonical(name) == name
  {
    CasedIsFixed(name, true);
  }

  lemma IdNameCanonical()
    ensures Canonical(ID_NAME) == ID_NAME
  {
    CasedTokenIsCanonical(ID_NAME);
  }

  lemma ErrorNameCanonical()
    ensures Canonical(ERROR_NAME) == ERROR_NAME
  {
    CasedTokenIsCanonical(ERROR_NAME);
  }

  lemma LengthNameCanonical()
    ensures Canonical(LENGTH_NAME) == LENGTH_NAME
  {
    CasedTokenIsCanonical(LENGTH_NAME);
  }

  lemma ProtocolNamesCanonical()
    ensures Canonical(ID_NAME) == ID_NAME
    ensures Canonical(ERROR_NAME) == ERROR_NAME
    ensures Canonical(LENGTH_NAME) == LENGTH_NAME
    ensures ID_NAME != ERROR_NAME && ID_NAME != LENGTH_NAME
  {
    IdNameCanonical();
    ErrorNameCanonical();
    LengthNameCanonical();
    assert |ID_NAME| == 14 && |ERROR_NAME| == 13;
    assert ID_NAME[0] != LENGTH_NAME[0];
  }

  /** `GetHeader(MessageIDHeader)`; the name is canonical as it stands. */
  function IdOf(m: Message): bytes {
    FirstOf(m.headers, ID_NAME)
  }

  function IdsOf(m: Message): seq<bytes> {
    AllOf(m.headers, ID_NAME)
  }

  /** `Get(MessageContentLengthHeader)` */
  function LengthOf(hs: seq<Header>): bytes {
    FirstOf(hs, LENGTH_NAME)
  }

  lemma LengthOfIsGet(hs: seq<Header>)
    ensures LengthOf(hs) == Get(hs, LENGTH_NAME)
  {
    LengthNameCanonical();
  }

  lemma IdOfIsGet(m: Message)
    ensures IdOf(m) == Get(m.headers, ID_NAME) && IdsOf(m) == GetAll(m.headers, ID_NAME)
  {
    IdNameCanonical();
  }

  /** The ID is the first of the IDs. */
  lemma IdIsFirst(m: Message)
    ensures IdOf(m) == if IdsOf(m) == [] then "" else IdsOf(m)[0]
  {
    IdOfIsGet(m);
    GetIsFirst(m.headers, ID_NAME);
  }

  lemma SetLength(hs: seq<Header>, value: bytes)
    ensures LengthOf(Set(hs, LENGTH_NAME, value)) == value
  {
    SetEffect(hs, LENGTH_NAME, value, LENGTH_NAME);
    GetIsFirst(Set(hs, LENGTH_NAME, value), LENGTH_NAME);
    LengthOfIsGet(Set(hs, LENGTH_NAME, value));
  }

  /** Setting the ID leaves exactly that one. */
  lemma SetId(hs: seq<Header>, id: bytes, body: bytes)
    ensures IdsOf(Message(Set(hs, ID_NAME, id), body)) == [id] && IdOf(Message(Set(hs, ID_NAME, id), body)) == id
  {
    var m := Message(Set(hs, ID_NAME, id), body);
    SetEffect(hs, ID_NAME, id, ID_NAME);
    IdOfIsGet(m);
    IdIsFirst(m);
  }

  // ---------------------------------------------------------------- what a set leaves alone

  /** Only headers with the name differ: the others are the same, in the same order, and so are the values of other names. */
  ghost predicate OnlyDiffersIn(hs: seq<Header>, hs': seq<Header>, name: bytes) {
    && Delete(hs', name) == Delete(hs, name)
    && forall other | Canonical(other) != Canonical(name) :: GetAll(hs', other) == GetAll(hs, other)
  }

  lemma {:induction false} DeleteTwice(hs: seq<Header>, key: bytes)
    ensures OthersOf(OthersOf(hs, key), key) == OthersOf(hs, key)
  {
    if hs != [] {
      DeleteTwice(hs[1..], key);
      var rest := OthersOf(hs[1..], key);
      if hs[0].name == key {
        assert OthersOf(hs, key) == [] + rest == rest;
      } else {
        assert ([hs[0]] + rest)[1..] == rest;
      }
    }
  }

  /** Setting a header differs in that header alone. */
  lemma SetOnlyDiffers(hs: seq<Header>, name: bytes, value: bytes)
    ensures OnlyDiffersIn(hs, Set(hs, name, value), name)
  {
    GetAllAppend(Delete(hs, name), NewHeader(name, value), name);
    DeleteTwice(hs, Canonical(name));
    assert Delete(hs, name) + [] == Delete(hs, name);
    forall other | Canonical(other) != Canonical(name) ensures GetAll(Set(hs, name, value), other) == GetAll(hs, other) {
      SetEffect(hs, name, value, other);
    }
  }

  // ---------------------------------------------------------------- what the list operations give

  function NewHeader(name: bytes, value: bytes): Header {
    Header(Canonical(name), value)
  }

  predicate Matches(h: Header, name: bytes) {
    h.name == Canonical(name)
  }

  /** The value of the first header with the name, "" when there is none. */
  function Get(hs: seq<Header>, name: bytes): bytes {
    FirstOf(hs, Canonical(name))
  }

  function FirstOf(hs: seq<Header>, key: bytes): bytes {
    if hs == [] then "" else if hs[0].name == key then hs[0].value else FirstOf(hs[1..], key)
  }

  function GetAll(hs: seq<Header>, name: bytes): seq<bytes> {
    AllOf(hs, Canonical(name))
  }

  function AllOf(hs: seq<Header>, key: bytes): seq<bytes> {
    if hs == [] then []
    else (if hs[0].name == key then [hs[0].value] else []) + AllOf(hs[1..], key)
  }

  function Delete(hs: seq<Header>, name: bytes): seq<Header> {
    OthersOf(hs, Canonical(name))
  }

  function OthersOf(hs: seq<Header>, key: bytes): seq<Header> {
    if hs == [] then []
    else (if hs[0].name == key then [] else [hs[0]]) + OthersOf(hs[1..], key)
  }

  function Add(hs: seq<Header>, name: bytes, value: bytes): seq<Header> {
    hs + [NewHeader(name, value)]
  }

  function Set(hs: seq<Header>, name: bytes, value: bytes): seq<Header> {
    Add(Delete(hs, name), name, value)
  }

  lemma Associative<T>(a: seq<T>, b: seq<T>, c: seq<T>)
    ensures a + (b + c) == a + b + c
  {
  }

  lemma {:induction false} GetAllConcat(hs: seq<Header>, more: seq<Header>, name: bytes)
    ensures GetAll(hs + more, name) == GetAll(hs, name) + GetAll(more, name)
  {
    if hs == [] {
      assert hs + more == more;
    } else {
      assert (hs + more)[1..] == hs[1..] + more;
      GetAllConcat(hs[1..], more, name);
      Associative(if Matches(hs[0], name) then [hs[0].value] else [], GetAll(hs[1..], name), GetAll(more, name));
    }
  }

  lemma {:induction false} DeleteConcat(hs: seq<Header>, more: seq<Header>, name: bytes)
    ensures Delete(hs + more, name) == Delete(hs, name) + Delete(more, name)
  {
    if hs == [] {
      assert hs + more == more;
    } else {
      assert (hs + more)[1..] == hs[1..] + more;
      DeleteConcat(hs[1..], more, name);
      Associative(if Matches(hs[0], name) then [] else [hs[0]], Delete(hs[1..], name), Delete(more, name));
    }
  }

  lemma GetAllAppend(hs: seq<Header>, h: Header, name: bytes)
    ensures GetAll(hs + [h], name) == GetAll(hs, name) + if Matches(h, name) then [h.value] else []
    ensures Delete(hs + [h], name) == Delete(hs, name) + if Matches(h, name) then [] else [h]
  {
    GetAllConcat(hs, [h], name);
    DeleteConcat(hs, [h], name);
    assert [h][1..] == [];
    assert AllOf([h][1..], Canonical(name)) == [] && OthersOf([h][1..], Canonical(name)) == [];
  }

  lemma {:induction false} GetIsFirst(hs: seq<Header>, name: bytes)
    ensures Get(hs, name) == if GetAll(hs, name) == [] then "" else GetAll(hs, name)[0]
  {
    if hs != [] {
      GetIsFirst(hs[1..], name);
    }
  }

  lemma {:induction false} DeleteNothing(hs: seq<Header>, name: bytes)
    requires GetAll(hs, name) == []
    ensures Delete(hs, name) == hs
  {
    if hs != [] {
      DeleteNothing(hs[1..], name);
      assert hs == [hs[0]] + hs[1..];
    }
  }

  lemma {:induction false} DeleteEffect(hs: seq<Header>, name: bytes, other: bytes)
    ensures GetAll(Delete(hs, name), other) == if Canonical(other) == Canonical(name) then [] else GetAll(hs, other)
    ensures forall h :: h in Delete(hs, name) ==> h in hs && !Matches(h, name)
  {
    if hs != [] {
      DeleteEffect(hs[1..], name, other);
      var rest := Delete(hs[1..], name);
      if !Matches(hs[0], name) {
        assert Delete(hs, name) == [hs[0]] + rest;
        assert ([hs[0]] + rest)[1..] == rest;
      } else {
        assert Delete(hs, name) == rest;
      }
    }
  }

  /** `Set` leaves exactly one header of its name, with its value, and does not touch other names. */
  lemma SetEffect(hs: seq<Header>, name: bytes, value: bytes, other: bytes)
    ensures GetAll(Set(hs, name, value), name) == [value]
    ensures Get(Set(hs, name, value), name) == value
    ensures Canonical(other) != Canonical(name) ==>
              && GetAll(Set(hs, name, value), other) == GetAll(hs, other)
              && Get(Set(hs, name, value), other) == Get(hs, other)
  {
    DeleteEffect(hs, name, name);
    DeleteEffect(hs, name, other);
    var d, h := Delete(hs, name), NewHeader(name, value);
    GetAllAppend(d, h, name);
    GetAllAppend(d, h, other);
    GetIsFirst(Set(hs, name, value), name);
    GetIsFirst(Set(hs, name, value), other);
    GetIsFirst(hs, other);
  }
}
