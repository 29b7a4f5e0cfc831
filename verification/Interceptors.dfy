/**
 Read interceptors, two ways: the lazy queue of lib/interop/interceptor/read.rb, filled only when a reader asks, and the
 eager relay of interop/middleware.go, a goroutine that pushes into an unbuffered pipe. An interceptor that only writes to
 the writer it is given is the function from a message to what it writes.
 */
module Interceptors {
  import opened Basics

  function FlatMap<M>(f: M -> seq<M>, xs: seq<M>): seq<M> {
    if xs == [] then [] else FlatMap(f, xs[..|xs| - 1]) + f(xs[|xs| - 1])
  }

  lemma {:induction false} FlatMapConcat<M>(f: M -> seq<M>, xs: seq<M>, ys: seq<M>)
    ensures FlatMap(f, xs + ys) == FlatMap(f, xs) + FlatMap(f, ys)
  {
    if ys == [] {
      assert xs + ys == xs;
    } else {
      var zs, y := ys[..|ys| - 1], ys[|ys| - 1];
      assert (xs + ys)[..|xs + ys| - 1] == xs + zs;
      FlatMapConcat(f, xs, zs);
    }
  }

  lemma FlatMapOne<M>(f: M -> seq<M>, x: M)
    ensures FlatMap(f, [x]) == f(x)
  {
    assert [x][..0] == [];
    assert FlatMap(f, [x][..0]) == [];
  }

  lemma FlatMapHead<M>(f: M -> seq<M>, xs: seq<M>)
    requires xs != []
    ensures FlatMap(f, xs) == f(xs[0]) + FlatMap(f, xs[1..])
  {
    assert xs == [xs[0]] + xs[1..];
    FlatMapConcat(f, [xs[0]], xs[1..]);
    FlatMapOne(f, xs[0]);
  }

  lemma OneConsumed<M>(f: M -> seq<M>, consumed: seq<M>, source: seq<M>)
    requires source != []
    ensures consumed + [source[0]] + source[1..] == consumed + source
    ensures FlatMap(f, consumed + [source[0]]) == FlatMap(f, consumed) + f(source[0])
  {
    assert (consumed + [source[0]])[..|consumed|] == consumed;
  }

  lemma OneDelivered<M>(delivered: seq<M>, queue: seq<M>)
    requires queue != []
    ensures delivered + [queue[0]] + queue[1..] == delivered + queue
  {
  }

  lemma AllConsumed<M>(consumed: seq<M>, delivered: seq<M>)
    ensures consumed + [] == consumed && delivered + [] == delivered
  {
  }

  // ---------------------------------------------------------------- lazy

  class LazyReader<M> {
    const handler: M -> seq<M>
    var source: seq<M>
    var queue: seq<M>
    ghost const all: seq<M>
    ghost var consumed: seq<M>
    ghost var delivered: seq<M>

    /** What was delivered and what is queued is the image of what was consumed. */
    ghost predicate Valid() reads this {
      consumed + source == all && delivered + queue == FlatMap(handler, consumed)
    }

    constructor (source: seq<M>, handler: M -> seq<M>)
      ensures Valid() && all == source && delivered == [] && this.handler == handler
    {
      this.handler, this.source, queue := handler, source, [];
      all, consumed, delivered := source, [], [];
    }

    /** `_read`; `None` stands for the EOFError that reading the exhausted source raises. */
    method Read() returns (r: Option<M>)
      requires Valid()
      modifies this
      ensures Valid()
      ensures r.Some? ==> delivered == old(delivered) + [r.value]
      ensures r.None? ==> delivered == old(delivered) == FlatMap(handler, all)
      ensures old(queue) != [] ==> source == old(source)
    {
      while queue == []
        invariant Valid() && delivered == old(delivered)
        invariant old(queue) != [] ==> source == old(source) && queue != []
        decreases |source|
      {
        if source == [] {
          AllConsumed(consumed, delivered);
          return None;
        }
        OneConsumed(handler, consumed, source);
        queue := queue + handler(source[0]);
        consumed := consumed + [source[0]];
        source := source[1..];
      }
      OneDelivered(delivered, queue);
      r := Some(queue[0]);
      queue := queue[1..];
      delivered := delivered + [r.value];
    }

    /** Reading until the end of the source yields the image of the whole source. */
    method ReadToEnd() returns (ms: seq<M>)
      requires Valid() && delivered == []
      modifies this
      ensures ms == FlatMap(handler, all)
    {
      ms := [];
      while true
        invariant Valid() && ms == delivered
        decreases |FlatMap(handler, all)| - |ms|
      {
        var r := Read();
        if r.None? {
          return;
        }
        ms := ms + [r.value];
        FlatMapConcat(handler, consumed, source);
      }
    }
  }

  // ---------------------------------------------------------------- eager

  /** `pending` is what the running interceptor call still has to write; a write and the read it meets are one step. */
  datatype Relay<M> = Relay(source: seq<M>, pending: seq<M>, closed: bool, delivered: seq<M>)

  datatype Step = Fetch | Transfer | ClosePipe

  predicate Enabled<M>(r: Relay<M>, step: Step) {
    !r.closed &&
    match step
    case Fetch => r.pending == [] && r.source != []
    case Transfer => r.pending != []
    case ClosePipe => r.pending == [] && r.source == []
  }

  function Apply<M>(r: Relay<M>, step: Step, f: M -> seq<M>): Relay<M>
    requires Enabled(r, step)
  {
    match step
    case Fetch => r.(source := r.source[1..], pending := f(r.source[0]))
    case Transfer => r.(pending := r.pending[1..], delivered := r.delivered + [r.pending[0]])
    case ClosePipe => r.(closed := true)
  }

  ghost predicate Runs<M(!new)>(r: Relay<M>, steps: seq<Step>, f: M -> seq<M>, r': Relay<M>)
    decreases |steps|
  {
    if steps == [] then r' == r
    else Enabled(r, steps[0]) && Runs(Apply(r, steps[0], f), steps[1..], f, r')
  }

  function Start<M>(source: seq<M>): Relay<M> {
    Relay(source, [], false, [])
  }

  ghost predicate RelayInv<M(!new)>(r: Relay<M>, f: M -> seq<M>, all: seq<M>) {
    && r.delivered + r.pending + FlatMap(f, r.source) == FlatMap(f, all)
    && (r.closed ==> r.pending == [] && r.source == [])
  }

  lemma {:induction false} RelayKeepsInv<M(!new)>(r: Relay<M>, steps: seq<Step>, f: M -> seq<M>, r': Relay<M>, all: seq<M>)
    requires RelayInv(r, f, all) && Runs(r, steps, f, r')
    ensures RelayInv(r', f, all)
    decreases |steps|
  {
    if steps != [] {
      var next := Apply(r, steps[0], f);
      if steps[0].Fetch? {
        FlatMapHead(f, r.source);
        assert r.delivered + r.pending + FlatMap(f, r.source) == next.delivered + next.pending + FlatMap(f, next.source);
      } else if steps[0].Transfer? {
        assert r.delivered + r.pending == next.delivered + next.pending;
      }
      RelayKeepsInv(next, steps[1..], f, r', all);
    }
  }

  /**
   What readers of the relay have seen is always a beginning of the image of the source, and a reader that sees the pipe
   closed has seen all of it: the sequence the lazy reader gives.
   */
  lemma EagerIsLazy<M(!new)>(source: seq<M>, steps: seq<Step>, f: M -> seq<M>, r: Relay<M>)
    requires Runs(Start(source), steps, f, r)
    ensures r.delivered <= FlatMap(f, source)
    ensures r.closed ==> r.delivered == FlatMap(f, source)
    ensures !r.closed ==> exists step :: Enabled(r, step)
  {
    assert [] + [] + FlatMap(f, source) == FlatMap(f, source);
    RelayKeepsInv(Start(source), steps, f, r, source);
    if !r.closed {
      var step := if r.pending != [] then Transfer else if r.source != [] then Fetch else ClosePipe;
      assert Enabled(r, step);
    }
  }
}
