/**
 js/src/Exchange/Exchange.ts: the two-sided buffer. Whichever side comes first makes an object, and the other side's
 matching call takes it out. `factory(n)` is what the n-th call of the factory returns.
 */
module Exchange {
  datatype State<T> = State(buffer: seq<T>, side: bool, made: nat)

  function Init<T>(): State<T> {
    State([], false, 0)
  }

  /** The object a call from this side returns: the oldest one the other side left, or a new one. */
  function Met<T>(s: State<T>, fromSide: bool, factory: nat -> T): T {
    if s.buffer != [] && s.side == fromSide then s.buffer[0] else factory(s.made)
  }

  function After<T>(s: State<T>, fromSide: bool, factory: nat -> T): State<T> {
    if s.buffer != [] && s.side == fromSide then s.(buffer := s.buffer[1..])
    else State(s.buffer + [factory(s.made)], !fromSide, s.made + 1)
  }

  /** `taken` for `fromSide`, `given` for the other side. */
  function Inspect<T>(s: State<T>, fromSide: bool): seq<T> {
    if s.side == fromSide then [] else s.buffer
  }

  /** The objects made by factory calls `lo` to `hi`. */
  function Made<T>(factory: nat -> T, lo: nat, hi: nat): (r: seq<T>)
    requires lo <= hi
    ensures |r| == hi - lo && forall i | 0 <= i < |r| :: r[i] == factory(lo + i)
  {
    seq(hi - lo, i requires 0 <= i < hi - lo => factory(lo + i))
  }

  /** After `takes` calls on one side and `gives` on the other, the buffer is exactly the unmatched objects in order. */
  predicate Balanced<T(==)>(s: State<T>, factory: nat -> T, takes: nat, gives: nat) {
    if takes <= gives
    then s.made == gives && s.buffer == Made(factory, takes, gives) && (takes < gives ==> s.side)
    else s.made == takes && s.buffer == Made(factory, gives, takes) && !s.side
  }

  /** The k-th take and the k-th give both get the k-th object. */
  lemma MeetingKeepsBalance<T>(s: State<T>, factory: nat -> T, takes: nat, gives: nat)
    requires Balanced(s, factory, takes, gives)
    ensures Met(s, true, factory) == factory(takes) && Balanced(After(s, true, factory), factory, takes + 1, gives)
    ensures Met(s, false, factory) == factory(gives) && Balanced(After(s, false, factory), factory, takes, gives + 1)
    ensures Inspect(s, true) == if gives < takes then Made(factory, gives, takes) else []
    ensures Inspect(s, false) == if takes < gives then Made(factory, takes, gives) else []
  {
  }

  // ---------------------------------------------------------------- whole runs

  /** How many of the calls come from the side. */
  function Count(calls: seq<bool>, fromSide: bool): nat {
    if calls == [] then 0
    else Count(calls[..|calls| - 1], fromSide) + if calls[|calls| - 1] == fromSide then 1 else 0
  }

  function Run<T>(calls: seq<bool>, factory: nat -> T): State<T> {
    if calls == [] then Init() else After(Run(calls[..|calls| - 1], factory), calls[|calls| - 1], factory)
  }

  function Results<T>(calls: seq<bool>, factory: nat -> T): (r: seq<T>)
    ensures |r| == |calls|
  {
    if calls == [] then []
    else
      Results(calls[..|calls| - 1], factory)
      + [Met(Run(calls[..|calls| - 1], factory), calls[|calls| - 1], factory)]
  }

  lemma {:induction false} RunBalanced<T>(calls: seq<bool>, factory: nat -> T)
    ensures Balanced(Run(calls, factory), factory, Count(calls, true), Count(calls, false))
  {
    if calls != [] {
      var before := calls[..|calls| - 1];
      RunBalanced(before, factory);
      MeetingKeepsBalance(Run(before, factory), factory, Count(before, true), Count(before, false));
    }
  }

  /** Every interleaving: call `i` returns the object whose number is how often its side had called before. */
  lemma {:induction false} KthMeetsKth<T>(calls: seq<bool>, factory: nat -> T, i: nat)
    requires i < |calls|
    ensures Results(calls, factory)[i] == factory(Count(calls[..i], calls[i]))
    decreases |calls|
  {
    var before := calls[..|calls| - 1];
    if i < |before| {
      KthMeetsKth(before, factory, i);
      assert before[..i] == calls[..i] && before[i] == calls[i];
    } else {
      RunBalanced(before, factory);
      MeetingKeepsBalance(Run(before, factory), factory, Count(before, true), Count(before, false));
    }
  }

  /** `taken` and `given` report the unmatched objects of their own side. */
  lemma InspectionExact<T>(calls: seq<bool>, factory: nat -> T)
    ensures var takes, gives := Count(calls, true), Count(calls, false);
            && Inspect(Run(calls, factory), true) == (if gives < takes then Made(factory, gives, takes) else [])
            && Inspect(Run(calls, factory), false) == (if takes < gives then Made(factory, takes, gives) else [])
  {
    RunBalanced(calls, factory);
    MeetingKeepsBalance(Run(calls, factory), factory, Count(calls, true), Count(calls, false));
  }

  // ---------------------------------------------------------------- the closures themselves

  /** The objects of a side that has called `mine` times that the other, which has called `theirs` times, has not met. */
  function Waiting<T>(factory: nat -> T, mine: nat, theirs: nat): seq<T> {
    if theirs < mine then Made(factory, theirs, mine) else []
  }

  class Shared<T> {
    const factory: nat -> T
    var buffer: seq<T>
    var side: bool
    var made: nat
    ghost var takes: nat
    ghost var gives: nat

    ghost function View(): State<T> reads this {
      State(buffer, side, made)
    }

    /** The buffer is exactly the objects only one side has met. */
    ghost predicate Valid() reads this {
      Balanced(View(), factory, takes, gives)
    }

    constructor (factory: nat -> T)
      ensures Valid() && View() == Init() && this.factory == factory && takes == 0 && gives == 0
    {
      this.factory := factory;
      buffer, side, made := [], false, 0;
      takes, gives := 0, 0;
    }

    /** `take` is `Meet(true)`, `give` is `Meet(false)`: the k-th call of either side returns the k-th object. */
    method Meet(fromSide: bool) returns (r: T)
      requires Valid()
      modifies this
      ensures Valid() && View() == After(old(View()), fromSide, factory)
      ensures r == factory(if fromSide then old(takes) else old(gives))
      ensures takes == old(takes) + (if fromSide then 1 else 0) && gives == old(gives) + if fromSide then 0 else 1
    {
      MeetingKeepsBalance(View(), factory, takes, gives);
      if fromSide {
        takes := takes + 1;
      } else {
        gives := gives + 1;
      }
      if |buffer| > 0 && side == fromSide {
        r := buffer[0];
        buffer := buffer[1..];
        return;
      }
      side := !fromSide;
      r := factory(made);
      made := made + 1;
      buffer := buffer + [r];
    }

    /** `taken` is `Unmatched(true)`, `given` is `Unmatched(false)`: the objects of the side that the other has not met. */
    method Unmatched(fromSide: bool) returns (r: seq<T>)
      requires Valid()
      ensures r == if fromSide then Waiting(factory, takes, gives) else Waiting(factory, gives, takes)
    {
      MeetingKeepsBalance(View(), factory, takes, gives);
      return if side == fromSide then [] else buffer;
    }
  }
}
