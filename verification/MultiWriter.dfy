/**
 interop/multi_writer.go: subscribers in a Go slice, and an unsubscribe loop that keeps ranging over the slice it started
 with while it shifts the elements of the shared backing array. A writer is known by a number.
 */
module MultiWriter {
  type Writer = nat

  predicate Distinct(ws: seq<Writer>) {
    forall i, j | 0 <= i < j < |ws| :: ws[i] != ws[j]
  }

  function Without(ws: seq<Writer>, w: Writer): seq<Writer> {
    if ws == [] then [] else (if ws[0] == w then [] else [ws[0]]) + Without(ws[1..], w)
  }

  lemma {:induction false} WithoutAbsent(ws: seq<Writer>, w: Writer)
    requires w !in ws
    ensures Without(ws, w) == ws
  {
    if ws != [] {
      WithoutAbsent(ws[1..], w);
      assert ws == [ws[0]] + ws[1..];
    }
  }

  /** The loop slices beyond the end exactly when the writer is both last and somewhere before. */
  predicate Panics(ws: seq<Writer>, w: Writer) {
    ws != [] && ws[|ws| - 1] == w && w in ws[..|ws| - 1]
  }

  /** The array once element `i` of its first `len` was shifted out: the last of them is left behind twice. */
  function Shifted(cells: seq<Writer>, len: nat, i: nat): (r: seq<Writer>)
    requires i < len <= |cells|
    ensures |r| == |cells|
    ensures forall j | 0 <= j < |r| :: r[j] == if i <= j < len - 1 then cells[j + 1] else cells[j]
  {
    seq(|cells|, j requires 0 <= j < |cells| => if i <= j < len - 1 then cells[j + 1] else cells[j])
  }

  lemma ShiftedPrefix(cells: seq<Writer>, len: nat, i: nat, n: nat)
    requires i < len <= n <= |cells|
    ensures Shifted(cells, len, i)[..n] == Shifted(cells[..n], len, i)
  {
  }

  /** The loop about to look at index `i`, `ws` being what it set out with: either nothing was removed yet ... */
  predicate Ranging(ws: seq<Writer>, w: Writer, cells: seq<Writer>, len: nat, i: nat) {
    && |cells| == |ws| && i <= |ws| && len <= |ws|
    && (ws != [] ==> cells[|ws| - 1] == ws[|ws| - 1])
    && (len == |ws| ==> cells == ws && w !in ws[..i])
    // ... or the writer was there, and behind the live elements only copies of the last one are left.
    && (len < |ws| ==> w in ws && (i < |ws| ==> w in ws[..|ws| - 1]))
    && (len < |ws| ==> forall j | i <= j < |ws| && len - 1 <= j :: cells[j] == ws[|ws| - 1])
  }

  lemma RangingGoesOn(ws: seq<Writer>, w: Writer, cells: seq<Writer>, len: nat, i: nat)
    requires Ranging(ws, w, cells, len, i) && i < |ws|
    ensures cells[i] != w ==> Ranging(ws, w, cells, len, i + 1)
    ensures cells[i] == w && len <= i ==> Panics(ws, w)
    ensures cells[i] == w && i < len ==> Ranging(ws, w, Shifted(cells, len, i), len - 1, i + 1)
  {
    assert ws[..i + 1] == ws[..i] + [ws[i]];
    if len == |ws| && cells[i] == w {
      assert w in ws;
      assert i < |ws| - 1 ==> ws[..|ws| - 1][i] == w;
    }
  }

  lemma RangingEnds(ws: seq<Writer>, w: Writer, cells: seq<Writer>, len: nat, i: nat)
    requires Ranging(ws, w, cells, len, i) && i + 1 == |ws| && Panics(ws, w)
    ensures cells[i] == w && len <= i
  {
    assert ws[..i] == ws[..|ws| - 1];
  }

  /** What the loop leaves: after each removal the next element takes the removed one's place and is not looked at. */
  function Skimmed(ws: seq<Writer>, w: Writer): seq<Writer>
    decreases |ws|
  {
    if ws == [] then []
    else if ws[0] != w then [ws[0]] + Skimmed(ws[1..], w)
    else if |ws| == 1 then []
    else [ws[1]] + Skimmed(ws[2..], w)
  }

  lemma {:induction false} SkimmedAbsent(ws: seq<Writer>, w: Writer)
    requires w !in ws
    ensures Skimmed(ws, w) == ws
  {
    if ws != [] {
      SkimmedAbsent(ws[1..], w);
      assert ws == [ws[0]] + ws[1..];
    }
  }

  /** With distinct subscribers nothing that should go is skipped. */
  lemma {:induction false} SkimmedDistinct(ws: seq<Writer>, w: Writer)
    requires Distinct(ws)
    ensures Skimmed(ws, w) == Without(ws, w)
  {
    if ws == [] {
    } else if ws[0] != w {
      SkimmedDistinct(ws[1..], w);
    } else {
      var rest := ws[1..];
      WithoutAbsent(rest, w);
      if |ws| > 1 {
        assert rest[1..] == ws[2..] && rest == [ws[1]] + ws[2..];
        SkimmedAbsent(ws[2..], w);
      }
    }
  }

  /** How much of the result stands in the array when the loop is about to look at index `i`. */
  predicate Skimming(ws: seq<Writer>, w: Writer, cells: seq<Writer>, len: nat, i: nat) {
    && |cells| == |ws| && len <= |ws|
    && (i > len ==> Skimmed(ws, w) == cells[..len])
    && (i <= len ==>
          var removed := |ws| - len;
          && (forall j | i <= j < len :: cells[j] == ws[j + removed])
          && Skimmed(ws, w) == cells[..i] + Skimmed(ws[i + removed..], w))
  }

  lemma SkimmingKeeps(ws: seq<Writer>, w: Writer, cells: seq<Writer>, len: nat, i: nat)
    requires Skimming(ws, w, cells, len, i) && i < |ws| && cells[i] != w
    ensures Skimming(ws, w, cells, len, i + 1)
  {
    if i < len {
      var rest := ws[i + |ws| - len..];
      assert rest[0] == cells[i] && rest[1..] == ws[i + 1 + |ws| - len..];
      assert cells[..i] + ([cells[i]] + Skimmed(rest[1..], w)) == cells[..i + 1] + Skimmed(rest[1..], w);
    } else if i == len {
      assert ws[i + |ws| - len..] == [];
      assert cells[..i] + [] == cells[..i];
    }
  }

  lemma SkimmingRemoves(ws: seq<Writer>, w: Writer, cells: seq<Writer>, len: nat, i: nat)
    requires Skimming(ws, w, cells, len, i) && i < len && cells[i] == w
    ensures Skimming(ws, w, Shifted(cells, len, i), len - 1, i + 1)
  {
    var cells', rest := Shifted(cells, len, i), ws[i + |ws| - len..];
    assert rest[0] == w && cells'[..i] == cells[..i];
    if i + 1 < len {
      assert cells[i + 1] == rest[1] == cells'[i];
      assert rest[2..] == ws[i + 1 + |ws| - (len - 1)..];
      assert cells[..i] + ([rest[1]] + Skimmed(rest[2..], w)) == cells'[..i + 1] + Skimmed(rest[2..], w);
    } else {
      assert cells[..i] + [] == cells[..i];
    }
  }

  lemma SkimmingEnds(ws: seq<Writer>, w: Writer, cells: seq<Writer>, len: nat)
    requires Skimming(ws, w, cells, len, |ws|)
    ensures cells[..len] == Skimmed(ws, w)
  {
    if len == |ws| {
      assert ws[|ws|..] == [];
      assert cells[..len] + [] == cells[..len];
    }
  }

  datatype Outcome = Panicked | Left(ws: seq<Writer>)

  /** The rest of the loop from index `i` on, as a function. */
  function Loop(cells: seq<Writer>, len: nat, w: Writer, i: nat): Outcome
    requires i <= |cells| && len <= |cells|
    decreases |cells| - i
  {
    if i == |cells| then Left(cells[..len])
    else if cells[i] != w then Loop(cells, len, w, i + 1)
    else if i >= len then Panicked
    else Loop(Shifted(cells, len, i), len - 1, w, i + 1)
  }

  lemma LoopStep(cells: seq<Writer>, len: nat, w: Writer, i: nat)
    requires i < |cells| && len <= |cells|
    ensures Loop(cells, len, w, i) ==
            if cells[i] != w then Loop(cells, len, w, i + 1)
            else if i >= len then Panicked
            else Loop(Shifted(cells, len, i), len - 1, w, i + 1)
  {
  }

  lemma {:induction false} LoopPanics(ws: seq<Writer>, w: Writer, cells: seq<Writer>, len: nat, i: nat)
    requires Ranging(ws, w, cells, len, i) && (i == |ws| ==> !Panics(ws, w))
    ensures Loop(cells, len, w, i).Panicked? <==> Panics(ws, w)
    decreases |ws| - i
  {
    if i < |ws| {
      RangingGoesOn(ws, w, cells, len, i);
      if i + 1 == |ws| && Panics(ws, w) {
        RangingEnds(ws, w, cells, len, i);
      }
      if cells[i] != w {
        LoopPanics(ws, w, cells, len, i + 1);
      } else if i < len {
        LoopPanics(ws, w, Shifted(cells, len, i), len - 1, i + 1);
      }
    }
  }

  lemma {:induction false} LoopSkims(ws: seq<Writer>, w: Writer, cells: seq<Writer>, len: nat, i: nat)
    requires i <= |ws| && Skimming(ws, w, cells, len, i)
    ensures Loop(cells, len, w, i).Left? ==> Loop(cells, len, w, i).ws == Skimmed(ws, w)
    decreases |ws| - i
  {
    if i == |ws| {
      SkimmingEnds(ws, w, cells, len);
    } else if cells[i] != w {
      SkimmingKeeps(ws, w, cells, len, i);
      LoopSkims(ws, w, cells, len, i + 1);
    } else if i < len {
      SkimmingRemoves(ws, w, cells, len, i);
      LoopSkims(ws, w, Shifted(cells, len, i), len - 1, i + 1);
    }
  }

  lemma LoopStarts(ws: seq<Writer>, w: Writer)
    ensures Ranging(ws, w, ws, |ws|, 0) && Skimming(ws, w, ws, |ws|, 0)
  {
    assert ws[0..] == ws && ws[..0] == [];
    assert [] + Skimmed(ws, w) == Skimmed(ws, w);
  }

  /** The whole loop panics or skims; with distinct subscribers it removes the writer and nothing else. */
  lemma LoopResult(ws: seq<Writer>, w: Writer)
    ensures Loop(ws, |ws|, w, 0) == if Panics(ws, w) then Panicked else Left(Skimmed(ws, w))
    ensures Distinct(ws) ==> Loop(ws, |ws|, w, 0) == Left(Without(ws, w))
  {
    LoopStarts(ws, w);
    LoopPanics(ws, w, ws, |ws|, 0);
    LoopSkims(ws, w, ws, |ws|, 0);
    if Distinct(ws) {
      assert !Panics(ws, w);
      SkimmedDistinct(ws, w);
    }
  }

  /** Two neighbouring copies of the writer. */
  predicate Adjacent(ws: seq<Writer>, w: Writer) {
    exists i :: 0 <= i < |ws| - 1 && ws[i] == w && ws[i + 1] == w
  }

  lemma AdjacentTail(ws: seq<Writer>, w: Writer)
    requires |ws| > 0
    ensures Adjacent(ws, w) <==> Adjacent(ws[1..], w) || (|ws| > 1 && ws[0] == w && ws[1] == w)
  {
    var rest := ws[1..];
    if Adjacent(ws, w) {
      var i :| 0 <= i < |ws| - 1 && ws[i] == w && ws[i + 1] == w;
      assert i > 0 ==> rest[i - 1] == w && rest[i - 1 + 1] == w;
    }
    if Adjacent(rest, w) {
      var i :| 0 <= i < |rest| - 1 && rest[i] == w && rest[i + 1] == w;
      assert ws[i + 1] == w && ws[i + 1 + 1] == w;
    }
  }

  /** Skimming removes every copy exactly if no two copies are neighbours: the second would be skipped. */
  lemma {:induction false} SkimmedExactly(ws: seq<Writer>, w: Writer)
    ensures Skimmed(ws, w) == Without(ws, w) <==> !Adjacent(ws, w)
    decreases |ws|
  {
    if |ws| > 0 {
      AdjacentTail(ws, w);
      var rest := ws[1..];
      if ws[0] != w {
        SkimmedExactly(rest, w);
        assert ([ws[0]] + Skimmed(rest, w))[1..] == Skimmed(rest, w);
        assert ([ws[0]] + Without(rest, w))[1..] == Without(rest, w);
      } else if |ws| > 1 {
        assert rest[1..] == ws[2..];
        AdjacentTail(rest, w);
        SkimmedExactly(ws[2..], w);
        assert ([ws[1]] + Skimmed(ws[2..], w))[1..] == Skimmed(ws[2..], w);
        assert ([ws[1]] + Without(ws[2..], w))[1..] == Without(ws[2..], w);
        WithoutTwice(ws, w);
      }
    }
  }

  /** Unsubscribing removes all copies of the writer, and only those, exactly under this condition. */
  lemma RemovesAllExactly(ws: seq<Writer>, w: Writer)
    ensures Loop(ws, |ws|, w, 0) == Left(Without(ws, w)) <==> !Panics(ws, w) && !Adjacent(ws, w)
  {
    LoopResult(ws, w);
    SkimmedExactly(ws, w);
  }

  /** The writer stands at `p`, and nowhere else except perhaps right behind. */
  predicate OneRun(ws: seq<Writer>, w: Writer, p: int) {
    0 <= p < |ws| && ws[p] == w && forall j | 0 <= j < |ws| && ws[j] == w :: j == p || j == p + 1
  }

  lemma {:induction false} SkimmedLength(ws: seq<Writer>, w: Writer)
    ensures |Skimmed(ws, w)| <= |ws|
    ensures |Skimmed(ws, w)| == |ws| <==> w !in ws
    decreases |ws|
  {
    if |ws| > 0 {
      if ws[0] != w {
        SkimmedLength(ws[1..], w);
      } else if |ws| > 1 {
        SkimmedLength(ws[2..], w);
      }
    }
  }

  lemma OneRunTail(ws: seq<Writer>, w: Writer)
    requires |ws| > 0 && ws[0] != w
    ensures (exists p :: OneRun(ws, w, p)) <==> (exists p :: OneRun(ws[1..], w, p))
  {
    var rest := ws[1..];
    if p :| OneRun(ws, w, p) {
      assert OneRun(rest, w, p - 1);
    }
    if p :| OneRun(rest, w, p) {
      forall j | 0 <= j < |ws| && ws[j] == w ensures j == p + 1 || j == p + 2 {
        assert rest[j - 1] == w;
      }
      assert OneRun(ws, w, p + 1);
    }
  }

  lemma OneRunHead(ws: seq<Writer>, w: Writer)
    requires |ws| > 1 && ws[0] == w
    ensures (exists p :: OneRun(ws, w, p)) <==> w !in ws[2..]
  {
    var tail := ws[2..];
    assert forall j | 2 <= j < |ws| :: ws[j] == tail[j - 2];
    if w !in tail {
      assert OneRun(ws, w, 0);
    }
  }

  /** Exactly one copy goes exactly if there is one copy, or there are two and they are neighbours. */
  lemma {:induction false} OneGoesExactly(ws: seq<Writer>, w: Writer)
    ensures |Skimmed(ws, w)| + 1 == |ws| <==> exists p :: OneRun(ws, w, p)
    decreases |ws|
  {
    if |ws| > 0 {
      if ws[0] != w {
        OneGoesExactly(ws[1..], w);
        OneRunTail(ws, w);
      } else if |ws| == 1 {
        assert OneRun(ws, w, 0);
      } else {
        SkimmedLength(ws[2..], w);
        OneRunHead(ws, w);
      }
    }
  }

  class Subscribers {
    var writers: array<Writer>
    var len: nat

    ghost predicate Valid() reads this {
      len <= writers.Length
    }

    ghost function View(): seq<Writer>
      requires Valid()
      reads this, writers
    {
      writers[..len]
    }

    constructor ()
      ensures Valid() && View() == []
    {
      writers := new Writer[0];
      len := 0;
    }

    method Subscribe(w: Writer)
      requires Valid()
      modifies this, writers
      ensures Valid() && View() == old(View()) + [w]
    {
      if len == writers.Length {
        var capacity :| capacity > len;
        var larger := new Writer[capacity];
        forall i | 0 <= i < len {
          larger[i] := writers[i];
        }
        writers := larger;
      }
      writers[len] := w;
      len := len + 1;
    }

    /** `append(m.writers[:i], m.writers[i+1:]...)`, which never needs a new array. */
    method RemoveAt(i: nat)
      requires Valid() && i < len
      modifies this`len, writers
      ensures len == old(len) - 1 && writers[..] == Shifted(old(writers[..]), old(len), i)
    {
      for j := i to len - 1
        invariant len == old(len)
        invariant forall k | 0 <= k < writers.Length :: writers[k] == old(writers[if i <= k < j then k + 1 else k])
      {
        writers[j] := writers[j + 1];
      }
      len := len - 1;
    }

    /** The loop itself, which ranges over the slice as it was at the start; false stands for the slice-bounds panic. */
    method RemoveEach(w: Writer) returns (ok: bool)
      requires Valid()
      modifies this`len, writers
      ensures Valid()
      ensures Loop(old(View()), old(len), w, 0) == if ok then Left(View()) else Panicked
    {
      var n := len;
      ghost var cells, outcome := View(), Loop(View(), len, w, 0);
      for i := 0 to n
        invariant len <= n <= writers.Length && cells == writers[..n]
        invariant Loop(cells, len, w, i) == outcome
      {
        LoopStep(cells, len, w, i);
        if writers[i] == w {
          if i + 1 > len {
            return false;
          }
          ShiftedPrefix(writers[..], len, i, n);
          cells := Shifted(cells, len, i);
          RemoveAt(i);
        }
      }
      assert cells[..len] == writers[..len];
      ok := true;
    }

    /**
     The closure `Subscribe` returns: it removes exactly its own writer unless two copies of it are neighbours, or one is
     last and another before, and so always when the subscribers are distinct.
     */
    method Unsubscribe(w: Writer) returns (ok: bool)
      requires Valid()
      modifies this`len, writers
      ensures Valid()
      ensures ok <==> !Panics(old(View()), w)
      ensures ok ==> View() == Skimmed(old(View()), w)
      ensures ok && View() == Without(old(View()), w) <==> !Panics(old(View()), w) && !Adjacent(old(View()), w)
      ensures Distinct(old(View())) ==> ok && View() == Without(old(View()), w)
    {
      LoopResult(View(), w);
      SkimmedExactly(View(), w);
      ok := RemoveEach(w);
    }

    /**
     `Write`: every subscriber gets the message once, and those that fail are reported, in subscriber order: `at` says
     where they stand.
     */
    method WriteAll(fails: Writer -> bool) returns (written: seq<Writer>, errors: seq<Writer>, ghost at: seq<nat>)
      requires Valid()
      ensures written == View()
      ensures |at| == |errors| && forall k | 0 <= k < |at| :: at[k] < |View()| && errors[k] == View()[at[k]]
      ensures forall j, k | 0 <= j < k < |at| :: at[j] < at[k]
      ensures forall i | 0 <= i < |View()| :: i in at <==> fails(View()[i])
      ensures errors == [] <==> forall i | 0 <= i < |View()| :: !fails(View()[i])
    {
      written, errors, at := [], [], [];
      ghost var ws := View();
      for i := 0 to len
        invariant written == ws[..i] && |at| == |errors|
        invariant forall k | 0 <= k < |at| :: at[k] < i && errors[k] == ws[at[k]]
        invariant forall j, k | 0 <= j < k < |at| :: at[j] < at[k]
        invariant forall j | 0 <= j < i :: j in at <==> fails(ws[j])
      {
        written := written + [writers[i]];
        if fails(writers[i]) {
          errors, at := errors + [writers[i]], at + [i];
          assert at[|at| - 1] == i;
        }
      }
      assert errors != [] ==> at[0] in at;
    }
  }

  /** Taking a writer out of a list: out of each part, and out of a list of its own only. */
  lemma {:induction false} WithoutMeaning(ws: seq<Writer>, more: seq<Writer>, w: Writer, x: Writer)
    ensures Without(ws + more, w) == Without(ws, w) + Without(more, w)
    ensures Without([x], w) == if x == w then [] else [x]
  {
    assert [x][1..] == [];
    assert Without([x][1..], w) == [];
    if ws == [] {
      assert ws + more == more;
    } else {
      assert (ws + more)[1..] == ws[1..] + more;
      WithoutMeaning(ws[1..], more, w, x);
      var head := if ws[0] == w then [] else [ws[0]];
      assert head + (Without(ws[1..], w) + Without(more, w)) == head + Without(ws[1..], w) + Without(more, w);
    }
  }

  /** Unsubscribing twice is unsubscribing once. */
  lemma {:induction false} WithoutTwice(ws: seq<Writer>, w: Writer)
    ensures Without(Without(ws, w), w) == Without(ws, w) && w !in Without(ws, w)
  {
    if ws != [] {
      WithoutTwice(ws[1..], w);
      var rest := Without(ws[1..], w);
      if ws[0] == w {
        assert Without(ws, w) == [] + rest == rest;
      } else {
        assert ([ws[0]] + rest)[1..] == rest;
      }
    }
  }

  /** The loop run again finds nothing to remove and does not panic. */
  lemma SecondRunIdle(ws: seq<Writer>, w: Writer)
    requires Distinct(ws)
    ensures Loop(ws, |ws|, w, 0) == Left(Without(ws, w))
    ensures Loop(Without(ws, w), |Without(ws, w)|, w, 0) == Left(Without(ws, w))
  {
    var left := Without(ws, w);
    LoopResult(ws, w);
    WithoutTwice(ws, w);
    LoopResult(left, w);
    SkimmedAbsent(left, w);
  }
}
