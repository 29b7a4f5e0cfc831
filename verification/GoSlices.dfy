/**
 interop/message_builder.go and interop/headers.go on the heap: a header list is a Go slice, that is a backing array
 and a length, and `append` writes into spare capacity when there is some. Duplicates share the backing array.
 */
module GoSlices {
  import opened Bytes
  import opened Headers
  import opened WireCodec

  datatype Edit = SetHeader(name: bytes, value: bytes) | AddHeader(name: bytes, value: bytes) | SetBody(body: bytes)

  function Edited(m: Message, e: Edit): Message {
    match e
    case SetHeader(name, value) => m.(headers := Set(m.headers, name, value))
    case AddHeader(name, value) => m.(headers := Add(m.headers, name, value))
    case SetBody(body) => m.(body := body)
  }

  function EditedAll(m: Message, es: seq<Edit>): Message {
    if es == [] then m else Edited(EditedAll(m, es[..|es| - 1]), es[|es| - 1])
  }

  /** What edits make of a body: the last one set, or the original. */
  function BodyAfter(body: bytes, es: seq<Edit>): bytes {
    if es == [] then body else if es[|es| - 1].SetBody? then es[|es| - 1].body else BodyAfter(body, es[..|es| - 1])
  }

  /** What edits make of the values of a name: a set replaces them all, an add comes last, and other names do nothing. */
  function ValuesAfter(values: seq<bytes>, es: seq<Edit>, name: bytes): seq<bytes> {
    if es == [] then values
    else
      var before := ValuesAfter(values, es[..|es| - 1], name);
      match es[|es| - 1]
      case SetHeader(n, v) => if Canonical(n) == Canonical(name) then [v] else before
      case AddHeader(n, v) => if Canonical(n) == Canonical(name) then before + [v] else before
      case SetBody(_) => before
  }

  lemma EditedMeaning(m: Message, e: Edit, name: bytes)
    ensures Edited(m, e).body == BodyAfter(m.body, [e])
    ensures GetAll(Edited(m, e).headers, name) == ValuesAfter(GetAll(m.headers, name), [e], name)
  {
    assert [e][..0] == [];
    match e {
      case SetHeader(n, v) =>
        SetEffect(m.headers, n, v, name);
        SetEffect(m.headers, name, v, n);
        if Canonical(n) == Canonical(name) {
          assert Set(m.headers, n, v) == Set(m.headers, name, v);
        }
      case AddHeader(n, v) =>
        GetAllAppend(m.headers, NewHeader(n, v), name);
        assert GetAll(m.headers, name) + [] == GetAll(m.headers, name);
      case SetBody(_) =>
    }
  }

  lemma ValuesOneMore(values: seq<bytes>, es: seq<Edit>, e: Edit, name: bytes)
    ensures ValuesAfter(values, es + [e], name) == ValuesAfter(ValuesAfter(values, es, name), [e], name)
    ensures forall body :: BodyAfter(body, es + [e]) == BodyAfter(BodyAfter(body, es), [e])
  {
    assert (es + [e])[..|es|] == es && [e][..0] == [];
  }

  /** Any edits: what becomes of the body, and of the values of every name. */
  lemma {:induction false} EditsMeaning(m: Message, es: seq<Edit>, name: bytes)
    ensures EditedAll(m, es).body == BodyAfter(m.body, es)
    ensures GetAll(EditedAll(m, es).headers, name) == ValuesAfter(GetAll(m.headers, name), es, name)
  {
    if es != [] {
      var before, e := es[..|es| - 1], es[|es| - 1];
      assert es == before + [e];
      EditsMeaning(m, before, name);
      EditedMeaning(EditedAll(m, before), e, name);
      ValuesOneMore(GetAll(m.headers, name), before, e, name);
    }
  }

  /** The headers that do not have the name, in a list made to measure. */
  method KeepOthers(src: array<Header>, len: nat, name: bytes, count: nat) returns (kept: array<Header>)
    requires len <= src.Length && count == |GetAll(src[..len], name)|
    ensures fresh(kept) && kept[..] == Delete(src[..len], name)
  {
    ghost var hs := src[..len];
    DeleteLength(hs, name);
    kept := new Header[len - count];
    var n := 0;
    for i := 0 to len
      invariant n <= kept.Length && kept[..n] == Delete(hs[..i], name)
    {
      DeletePrefix(hs, i + 1, name);
      assert hs[..i + 1] == hs[..i] + [hs[i]];
      GetAllAppend(hs[..i], hs[i], name);
      if !Matches(src[i], name) {
        kept[n] := src[i];
        n := n + 1;
      }
    }
    assert hs[..len] == hs;
  }

  class MessageBuilder {
    var headers: array<Header>
    var len: nat
    var body: bytes

    ghost predicate Valid() reads this {
      len <= headers.Length
    }

    ghost function View(): Message
      requires Valid()
      reads this, headers
    {
      Message(headers[..len], body)
    }

    /** `new(MessageBuilder)`: a nil slice. */
    constructor ()
      ensures Valid() && View() == Message([], []) && fresh(headers)
    {
      headers := new Header[0];
      len, body := 0, [];
    }

    /** `DuplicateMessage`: the same backing array and the same body. */
    constructor Duplicate(original: MessageBuilder)
      requires original.Valid()
      ensures Valid() && View() == original.View()
      ensures headers == original.headers && len == original.len
    {
      headers, len, body := original.headers, original.len, original.body;
    }

    method GetValue(name: bytes) returns (value: bytes)
      requires Valid()
      ensures value == Get(View().headers, name)
    {
      ghost var hs := View().headers;
      for i := 0 to len
        invariant Get(hs, name) == Get(hs[i..], name)
      {
        assert hs[i..][1..] == hs[i + 1..];
        if Matches(headers[i], name) {
          return headers[i].value;
        }
      }
      assert hs[len..] == [];
      return "";
    }

    method GetValues(name: bytes) returns (values: seq<bytes>)
      requires Valid()
      ensures values == GetAll(View().headers, name)
    {
      ghost var hs := View().headers;
      values := [];
      for i := 0 to len
        invariant values == GetAll(hs[..i], name)
      {
        assert hs[..i + 1] == hs[..i] + [hs[i]];
        GetAllAppend(hs[..i], hs[i], name);
        if Matches(headers[i], name) {
          values := values + [headers[i].value];
        }
      }
      assert hs[..len] == hs;
    }

    /**
     `append`: in place if there is room, otherwise in a larger copy. Either way the elements below the old length
     stay where they are, also for whoever shares the array.
     */
    method Append(h: Header)
      requires Valid()
      modifies this`headers, this`len, headers
      ensures Valid() && View() == old(View()).(headers := old(View()).headers + [h])
      ensures len == old(len) + 1
      ensures if old(len) < old(headers).Length then headers == old(headers)
              else fresh(headers) && old(headers)[..] == old(headers[..])
      ensures old(headers)[..old(len)] == old(headers[..len])
    {
      if len < headers.Length {
        headers[len] := h;
      } else {
        var capacity :| capacity > len;
        var larger := new Header[capacity];
        forall i | 0 <= i < len {
          larger[i] := headers[i];
        }
        larger[len] := h;
        headers := larger;
      }
      len := len + 1;
    }

    method AddValue(name: bytes, value: bytes)
      requires Valid()
      modifies this`headers, this`len, headers
      ensures Valid() && View() == Edited(old(View()), AddHeader(name, value))
      ensures len == old(len) + 1 && (headers == old(headers) || fresh(headers))
      ensures old(headers)[..old(len)] == old(headers[..len])
    {
      Append(NewHeader(name, value));
    }

    /** `Delete`: nothing to do, or a fresh list of what remains. */
    method DeleteAll(name: bytes)
      requires Valid()
      modifies this`headers, this`len
      ensures Valid() && View() == old(View()).(headers := Delete(old(View()).headers, name))
      ensures (headers == old(headers) && len == old(len)) || fresh(headers)
      ensures old(headers)[..] == old(headers[..])
    {
      var values := GetValues(name);
      ghost var hs := View().headers;
      if |values| > 0 {
        headers := KeepOthers(headers, len, name, |values|);
        len := headers.Length;
      } else {
        DeleteNothing(hs, name);
      }
    }

    method SetValue(name: bytes, value: bytes)
      requires Valid()
      modifies this`headers, this`len, headers
      ensures Valid() && View() == Edited(old(View()), SetHeader(name, value))
      ensures (headers == old(headers) && len == old(len) + 1) || fresh(headers)
      ensures old(headers)[..old(len)] == old(headers[..len])
    {
      DeleteAll(name);
      Append(NewHeader(name, value));
    }

    method Edit(e: Edit)
      requires Valid()
      modifies this, headers
      ensures Valid() && View() == Edited(old(View()), e)
      ensures (headers == old(headers) && len >= old(len)) || fresh(headers)
      ensures old(headers)[..old(len)] == old(headers[..len])
    {
      match e {
        case SetHeader(name, value) => SetValue(name, value);
        case AddHeader(name, value) => AddValue(name, value);
        case SetBody(b) => body := b;
      }
    }

    /** `setContentLength` frames any body that a 64-bit length can count. */
    method SetContentLength()
      requires Valid()
      modifies this`headers, this`len, headers
      ensures Valid() && View() == Edited(old(View()), SetHeader(LENGTH_NAME, Decimal(|body|)))
      ensures |body| < TWO_64 ==> Framed(View())
    {
      SetLength(View().headers, Decimal(|body|));
      DecimalRoundTrip(|body|);
      SetValue(LENGTH_NAME, Decimal(|body|));
    }
  }

  lemma {:induction false} DeleteLength(hs: seq<Header>, name: bytes)
    ensures |Delete(hs, name)| == |hs| - |GetAll(hs, name)|
  {
    if hs != [] {
      DeleteLength(hs[1..], name);
    }
  }

  lemma {:induction false} DeletePrefix(hs: seq<Header>, i: nat, name: bytes)
    requires i <= |hs|
    ensures |Delete(hs[..i], name)| <= |Delete(hs, name)|
    decreases |hs| - i
  {
    if i == |hs| {
      assert hs[..i] == hs;
    } else {
      assert hs[..i + 1] == hs[..i] + [hs[i]];
      GetAllAppend(hs[..i], hs[i], name);
      DeletePrefix(hs, i + 1, name);
    }
  }

  /** `dup` can only write above everything `original` shows. */
  ghost predicate Apart(original: MessageBuilder, dup: MessageBuilder)
    reads original, dup
  {
    original != dup && (dup.headers == original.headers ==> original.len <= dup.len)
  }

  /** Any edits of a duplicate take effect on it and leave what the original shows unchanged. */
  method EditDuplicate(original: MessageBuilder, es: seq<Edit>) returns (dup: MessageBuilder)
    requires original.Valid()
    modifies original.headers
    ensures original.Valid() && original.View() == old(original.View())
    ensures fresh(dup) && dup.Valid() && dup.View() == EditedAll(old(original.View()), es)
  {
    dup := new MessageBuilder.Duplicate(original);
    ghost var start := original.View();
    for i := 0 to |es|
      invariant fresh(dup) && dup.Valid() && original.Valid() && Apart(original, dup)
      invariant dup.headers == original.headers || fresh(dup.headers)
      invariant unchanged(original) && original.View() == start
      invariant dup.View() == EditedAll(start, es[..i])
    {
      assert es[..i + 1][..i] == es[..i];
      ghost var shared, visible, below := dup.headers, original.headers[..original.len], dup.len;
      dup.Edit(es[i]);
      assert shared == original.headers ==> original.headers[..original.len] == original.headers[..below][..original.len];
    }
    assert es[..|es|] == es;
  }

  /**
   Two duplicates of one message are not protected from each other: the second append lands on the first exactly when
   the original's array has room to spare.
   */
  method AppendToBoth(original: MessageBuilder, h: Header, h': Header) returns (first: MessageBuilder, second: MessageBuilder)
    requires original.Valid()
    modifies original.headers
    ensures original.Valid() && original.View() == old(original.View())
    ensures first.Valid() && first.len == original.len + 1 && second.Valid() && second.len == original.len + 1
    ensures second.headers[original.len] == h'
    ensures first.headers[original.len] == if original.len < original.headers.Length then h' else h
  {
    first := new MessageBuilder.Duplicate(original);
    second := new MessageBuilder.Duplicate(original);
    first.Append(h);
    second.Append(h');
  }
}
