/**
 interop/rpc_client.go as code on the heap, cut where another goroutine may come in between, and the dispatch loop of
 interop/events.go. Each piece of the client is proved to be a step of RpcClient, so that what holds of every run there holds
 of the code. The `requires` of `Send`, `Close` and `Receive` are what keeps a Go channel from blocking or panicking; the
 client is proved to meet them.
 */
module RpcClientCode {
  import opened Bytes
  import opened Headers
  import opened WireCodec
  import opened WireIO
  import opened GoSlices
  import R = RpcClient

  class ResponseChan {
    var buffer: seq<Message>
    var closed: bool
    ghost var sent: seq<Message>
    ghost var taken: nat

    ghost predicate Valid() reads this {
      taken <= |sent| && buffer == sent[taken..]
    }

    ghost function View(): R.Chan reads this {
      R.Chan(sent, taken, if closed then 1 else 0)
    }

    constructor ()
      ensures Valid() && View() == R.FRESH
    {
      buffer, closed := [], false;
      sent, taken := [], 0;
    }

    /** A send on a channel of capacity one: it panics when closed and blocks when full. */
    method Send(m: Message)
      requires Valid() && !closed && |buffer| < 1
      modifies this
      ensures Valid() && View() == old(View()).(sent := old(sent) + [m])
    {
      buffer, sent := buffer + [m], sent + [m];
    }

    /** A second close panics. */
    method Close()
      requires Valid() && !closed
      modifies this
      ensures Valid() && View() == old(View()).(closes := 1)
    {
      closed := true;
    }

    /** A receive that does not wait. */
    method Receive() returns (m: Message)
      requires Valid() && buffer != []
      modifies this
      ensures Valid() && m == old(sent)[old(taken)] && View() == old(View()).(taken := old(taken) + 1)
    {
      m, buffer := buffer[0], buffer[1..];
      taken := taken + 1;
    }
  }

  /** `DuplicateMessage(request).SetHeader(...)`: the message that is written, and the caller's request is left alone. */
  method StampRequest(request: MessageBuilder, id: bytes) returns (message: MessageBuilder)
    requires request.Valid()
    modifies request.headers
    ensures request.Valid() && request.View() == old(request.View())
    ensures message.Valid() && message.View() == R.Stamp(old(request.View()), id)
    ensures IdsOf(message.View()) == [id] && message.View().body == old(request.View()).body
    ensures OnlyDiffersIn(old(request.View()).headers, message.View().headers, ID_NAME)
  {
    ghost var m := request.View();
    message := EditDuplicate(request, [SetHeader(ID_NAME, id)]);
    assert EditedAll(m, [SetHeader(ID_NAME, id)][..0]) == m;
    R.StampHasId(m, id);
    R.StampKeepsRequest(m, id);
  }

  /** The map of the code and that of the machine, which leads to call numbers. */
  ghost predicate SameMap(results: map<bytes, ResponseChan>, ids: map<bytes, nat>, chans: seq<ResponseChan>) {
    && results.Keys == ids.Keys
    && forall id | id in ids :: ids[id] < |chans| && results[id] == chans[ids[id]]
  }

  lemma SameMapWithout(results: map<bytes, ResponseChan>, ids: map<bytes, nat>, chans: seq<ResponseChan>, id: bytes)
    requires SameMap(results, ids, chans)
    ensures SameMap(results - {id}, ids - {id}, chans)
    ensures id in results <==> id in ids
  {
  }

  lemma SameMapWith(results: map<bytes, ResponseChan>, ids: map<bytes, nat>, chans: seq<ResponseChan>, id: bytes, ch: ResponseChan)
    requires SameMap(results, ids, chans)
    ensures SameMap(results[id := ch], ids[id := |chans|], chans + [ch])
  {
  }

  class RpcClient {
    const idPrefix: bytes
    var nextId: nat
    var results: map<bytes, ResponseChan>
    ghost var chans: seq<ResponseChan>
    ghost var state: R.Client

    /** The counter, the map and the channels are those of the machine; `chans[k]` is the channel of call `k`. */
    ghost predicate Mirrors() reads this, chans {
      && state.prefix == idPrefix && state.nextId == nextId && |state.calls| == |chans|
      && (forall i, j | 0 <= i < j < |chans| :: chans[i] != chans[j])
      && (forall k | 0 <= k < |chans| :: chans[k].Valid() && chans[k].View() == state.calls[k].chan)
      && SameMap(results, state.results, chans)
    }

    ghost predicate Valid() reads this, chans {
      Mirrors() && R.Inv(state)
    }

    constructor (idPrefix: bytes)
      ensures Valid() && state == R.InitClient(idPrefix) && chans == []
    {
      this.idPrefix := idPrefix;
      nextId, results := 0, map[];
      chans, state := [], R.InitClient(idPrefix);
      new;
      R.InitInv(idPrefix);
    }

    method RegisterSection(request: Message) returns (id: bytes, ch: ResponseChan)
      requires Mirrors() && |chans| < TWO_64
      modifies this
      ensures Mirrors() && state == R.Apply(old(state), R.Register(request))
      ensures fresh(ch) && chans == old(chans) + [ch]
      ensures id == R.Id(idPrefix, old(nextId)) && results == old(results)[id := ch]
    {
      ch := new ResponseChan();
      id := R.Id(idPrefix, nextId);
      SameMapWith(results, state.results, chans, id, ch);
      nextId := (nextId + 1) % TWO_64;
      results := results[id := ch];
      state := R.Apply(state, R.Register(request));
      chans := chans + [ch];
    }

    /** The first critical section of `SendContext`: an ID no pending call has, and a new channel for it. */
    method Register(request: Message) returns (id: bytes, ch: ResponseChan)
      requires Valid() && |chans| < TWO_64
      modifies this
      ensures Valid() && state == R.Apply(old(state), R.Register(request))
      ensures fresh(ch) && chans == old(chans) + [ch]
      ensures id == R.Id(idPrefix, old(|chans|)) && id !in old(results) && results == old(results)[id := ch]
      ensures state.calls == old(state.calls) + [R.Call(request, R.FRESH, R.Registered, 0)]
    {
      R.StepKeepsInv(state, R.Register(request));
      R.RegisterFindsFree(state);
      id, ch := RegisterSection(request);
    }

    /** A step that touches neither the counter nor the map nor a channel. */
    method Note(ghost next: R.Client)
      requires Mirrors() && R.SameShared(state, next)
      modifies this`state
      ensures Mirrors() && state == next
    {
      state := next;
    }

    /**
     The write: the request with its ID goes out whole, or an initial part of it does. The step is taken when the bytes are
     out, for from then on a response may come, whether or not `Write` has returned.
     */
    method WriteRequest(request: MessageBuilder, id: bytes, w: ByteSink, ghost k: nat) returns (ok: bool)
      requires Valid() && R.InPhase(state, k, R.Registered) && id == R.Id(idPrefix, k)
      requires request.Valid() && state.calls[k].request == request.View()
      modifies this`state, request.headers, w
      ensures Valid() && request.Valid() && request.View() == old(request.View())
      ensures state == R.Apply(old(state), if ok then R.WriteOk(k) else R.WriteFails(k))
      ensures ok ==> w.written == old(w.written) + Print(R.Stamp(request.View(), id))
      ensures !ok ==> WrotePartOf(old(w.written), w.written, Print(R.Stamp(request.View(), id)))
    {
      var message := StampRequest(request, id);
      var n;
      n, ok := WriteMessage(Message(message.headers[..message.len], message.body), w);
      ghost var step := if ok then R.WriteOk(k) else R.WriteFails(k);
      R.QuietStepKeepsInv(state, step);
      Note(R.Apply(state, step));
    }

    /** `releaseResponseChan`, for a step that forgets the ID and leaves the channels alone. */
    method Release(id: bytes, ghost next: R.Client) returns (ch: ResponseChan?)
      requires Mirrors() && next.results == state.results - {id} && next.prefix == state.prefix
      requires next.nextId == state.nextId && |next.calls| == |state.calls|
      requires forall k | 0 <= k < |state.calls| :: next.calls[k].chan == state.calls[k].chan
      modifies this`results, this`state
      ensures Mirrors() && state == next
      ensures results == old(results) - {id} && ch == if id in old(results) then old(results)[id] else null
    {
      SameMapWithout(results, state.results, chans, id);
      ch := if id in results then results[id] else null;
      results := results - {id};
      state := next;
    }

    /** The write failed: the ID is released ... */
    method ReleaseFailed(id: bytes, ghost k: nat)
      requires Valid() && R.InPhase(state, k, R.FailedWrite) && id == R.Id(idPrefix, k)
      modifies this`results, this`state
      ensures Valid() && state == R.Apply(old(state), R.ReleaseFailed(k)) && id !in results
    {
      R.StepKeepsInv(state, R.ReleaseFailed(k));
      var ch := Release(id, R.Apply(state, R.ReleaseFailed(k)));
    }

    /** ... and the channel closed, which nobody has done before. */
    method CloseFailed(ch: ResponseChan, ghost k: nat)
      requires Valid() && R.InPhase(state, k, R.Released) && ch == chans[k]
      modifies this`state, ch
      ensures Valid() && state == R.Apply(old(state), R.CloseFailed(k)) && ch.buffer == []
    {
      R.StepKeepsInv(state, R.CloseFailed(k));
      R.ReleasedFindsUnused(state, k);
      ch.Close();
      state := R.Apply(state, R.CloseFailed(k));
    }

    /** The response is received: it is what the call returns. */
    method TakeResponse(ch: ResponseChan, ghost k: nat) returns (response: Message)
      requires Valid() && R.Enabled(state, R.TakeResponse(k)) && ch == chans[k]
      modifies this`state, ch
      ensures Valid() && state == R.Apply(old(state), R.TakeResponse(k))
      ensures state.calls[k].phase == R.Returned(R.Answered(response))
    {
      R.StepKeepsInv(state, R.TakeResponse(k));
      response := ch.Receive();
      state := R.Apply(state, R.TakeResponse(k));
    }

    /** The select picks the context, even if a response is there. */
    method ContextDone(ghost k: nat)
      requires Valid() && R.InPhase(state, k, R.Waiting)
      modifies this`state
      ensures Valid() && state == R.Apply(old(state), R.Expire(k))
    {
      R.QuietStepKeepsInv(state, R.Expire(k));
      Note(R.Apply(state, R.Expire(k)));
    }

    /** The ID of an expired call is released, unless the loop has done so before. */
    method ReleaseExpired(id: bytes, ghost k: nat)
      requires Valid() && R.InPhase(state, k, R.Expiring) && id == R.Id(idPrefix, k)
      modifies this`results, this`state
      ensures Valid() && state == R.Apply(old(state), R.ReleaseExpired(k)) && id !in results
    {
      R.StepKeepsInv(state, R.ReleaseExpired(k));
      var ch := Release(id, R.Apply(state, R.ReleaseExpired(k)));
    }

    /** The loop has read a message. */
    method MessageRead(m: Message)
      requires Valid() && state.loop.Idle?
      modifies this`state
      ensures Valid() && state == R.Apply(old(state), R.LoopRead(m))
    {
      R.QuietStepKeepsInv(state, R.LoopRead(m));
      Note(R.Apply(state, R.LoopRead(m)));
    }

    method RouteSection(m: Message) returns (ch: ResponseChan?)
      requires Mirrors() && state.loop == R.Handling(m)
      modifies this`results, this`state
      ensures Mirrors() && state == R.Apply(old(state), R.LoopRelease)
      ensures var id := IdOf(m);
              ch == if id != "" && id in old(results) then old(results)[id] else null
    {
      var id := IdOf(m);
      R.ReleaseEffect(state);
      ch := null;
      if id != "" {
        ch := Release(id, R.Apply(state, R.LoopRelease));
      } else {
        state := R.Apply(state, R.LoopRelease);
      }
    }

    /** `onReceiveMessage` up to the send or the dispatch: the channel of the call that waits for the message, if one does. */
    method Route(m: Message) returns (ch: ResponseChan?)
      requires Valid() && state.loop == R.Handling(m) && R.Solicited(state, R.LoopRelease)
      modifies this`results, this`state
      ensures Valid() && state == R.Apply(old(state), R.LoopRelease)
      ensures var id := IdOf(m);
              if id != "" && id in old(results)
              then ch == old(results)[id] && state.loop.Sending? && state.loop.k < |chans| && ch == chans[state.loop.k]
              else ch == null && state.loop.Dispatching?
    {
      R.StepKeepsInv(state, R.LoopRelease);
      R.ReleaseEffect(state);
      ch := RouteSection(m);
    }

    /** The response is sent: the channel is open and has room. */
    method SendResponse(ch: ResponseChan, m: Message, ghost k: nat)
      requires Valid() && state.loop == R.Sending(k, m) && k < |chans| && ch == chans[k]
      modifies this`state, ch
      ensures R.Enabled(old(state), R.LoopSend)
      ensures Valid() && state == R.Apply(old(state), R.LoopSend) && ch.buffer == [m]
    {
      R.SendFindsUnused(state);
      R.StepKeepsInv(state, R.LoopSend);
      ch.Send(m);
      state := R.Apply(state, R.LoopSend);
    }

    /** The channel is closed, for the first time. */
    method CloseResponse(ch: ResponseChan, ghost k: nat)
      requires Valid() && state.loop == R.ClosingChan(k) && k < |chans| && ch == chans[k]
      modifies this`state, ch
      ensures Valid() && state == R.Apply(old(state), R.LoopClose)
    {
      R.CloseFindsOpen(state);
      R.StepKeepsInv(state, R.LoopClose);
      ch.Close();
      state := R.Apply(state, R.LoopClose);
    }

    /** One turn of the dispatch loop, once the route has declined or its handler has returned. */
    method VisitRoute(matched: bool, ok: bool)
      requires Valid() && state.loop.Dispatching?
      modifies this`state
      ensures R.Enabled(old(state), R.LoopVisit(matched, ok))
      ensures Valid() && state == R.Apply(old(state), R.LoopVisit(matched, ok))
    {
      R.DispatchingHasSeen(state);
      R.QuietStepKeepsInv(state, R.LoopVisit(matched, ok));
      Note(R.Apply(state, R.LoopVisit(matched, ok)));
    }

    /** One turn of `Dispatch`; false stands for a handler's error. */
    method TakeTurn(routes: seq<Route>, event: Message, r: nat, ghost start: R.Client) returns (ran: bool, ok: bool)
      requires Valid() && r < |routes| && state.loop.Dispatching? && Visiting(start, state, routes, event, r)
      modifies this`state
      ensures Valid() && ran == routes[r].matcher(event)
      ensures ok ==> state.loop.Dispatching? && Visiting(start, state, routes, event, r + 1)
      ensures !ok ==> ran && r == FirstFailure(routes, event) < |routes| && Dispatched(start, state, routes, event, false)
    {
      VisitingGoesOn(start, state, routes, event, r);
      ran := routes[r].matcher(event);
      if ran {
        if !routes[r].succeeds(event) {
          VisitRoute(true, false);
          return ran, false;
        }
      }
      VisitRoute(ran, true);
      return ran, true;
    }

    /**
     `Dispatch` as the loop of the client runs it: all matching handlers in order, each visit noted. If all succeed the loop
     is free for the next message; the first that fails is the last one run, and ends it.
     */
    method DispatchEvent(routes: seq<Route>, event: Message) returns (ran: seq<nat>, ok: bool)
      requires Valid() && state.loop == R.Dispatching(event, 0, |routes|)
      modifies this`state
      ensures Valid() && Dispatched(old(state), state, routes, event, ok)
      ensures ok <==> FirstFailure(routes, event) == |routes|
      ensures RanExactly(ran, routes, event)
    {
      ran := [];
      ghost var start := state;
      R.DispatchingHasSeen(state);
      for r := 0 to |routes|
        invariant Valid() && state.loop.Dispatching? && Visiting(start, state, routes, event, r)
        invariant ran == Matching(routes, event, r)
      {
        var called;
        called, ok := TakeTurn(routes, event, r, start);
        if called {
          ran := ran + [r];
        }
        if !ok {
          RanMeaning(routes, event, ran);
          return;
        }
      }
      VisitingEnds(start, state, routes, event);
      assert ran + [] == ran;
      RanMeaning(routes, event, ran);
      VisitRoute(false, true);
      return ran, true;
    }
  }

  /** A route as the dispatcher sees it; a nil matcher matches everything. */
  datatype Route = Route(matcher: Message -> bool, succeeds: Message -> bool)

  /** Which of the first `n` routes match. */
  function Matching(routes: seq<Route>, event: Message, n: nat): seq<nat>
    requires n <= |routes|
  {
    if n == 0 then []
    else Matching(routes, event, n - 1) + if routes[n - 1].matcher(event) then [n - 1] else []
  }

  predicate Increasing(rs: seq<nat>) {
    forall i, j | 0 <= i < j < |rs| :: rs[i] < rs[j]
  }

  /** The routes that match, each once and in order. */
  lemma {:induction false} MatchingMeaning(routes: seq<Route>, event: Message, n: nat)
    requires n <= |routes|
    ensures Increasing(Matching(routes, event, n))
    ensures forall r: nat :: r in Matching(routes, event, n) <==> r < n && routes[r].matcher(event)
  {
    if n > 0 {
      MatchingMeaning(routes, event, n - 1);
      var before := Matching(routes, event, n - 1);
      forall i | 0 <= i < |before| ensures before[i] < n - 1 {
        assert before[i] in before;
      }
    }
  }

  /** The handlers that run are those of the matching routes up to the first that fails, each once and in order. */
  ghost predicate RanExactly(ran: seq<nat>, routes: seq<Route>, event: Message) {
    && Increasing(ran)
    && forall r: nat :: r in ran <==> r < |routes| && r <= FirstFailure(routes, event) && routes[r].matcher(event)
  }

  lemma RanMeaning(routes: seq<Route>, event: Message, ran: seq<nat>)
    requires var f := FirstFailure(routes, event); ran == Matching(routes, event, f) + if f == |routes| then [] else [f]
    ensures RanExactly(ran, routes, event)
  {
    var f := FirstFailure(routes, event);
    MatchingMeaning(routes, event, f);
    var before := Matching(routes, event, f);
    forall i | 0 <= i < |before| ensures before[i] < f {
      assert before[i] in before;
    }
  }

  /** The first route whose handler is called and fails, or how many there are. */
  function FirstFailure(routes: seq<Route>, event: Message): (f: nat)
    ensures f <= |routes|
    ensures f < |routes| ==> routes[f].matcher(event) && !routes[f].succeeds(event)
    ensures forall r | 0 <= r < f && routes[r].matcher(event) :: routes[r].succeeds(event)
  {
    if routes == [] then 0
    else if routes[0].matcher(event) && !routes[0].succeeds(event) then 0
    else
      var f := FirstFailure(routes[1..], event);
      assert forall r | 0 < r < |routes| :: routes[r] == routes[1..][r - 1];
      f + 1
  }

  /** The dispatch has come to route `r`, with nobody failing so far and every visit noted. */
  ghost predicate Visiting(start: R.Client, c: R.Client, routes: seq<Route>, event: Message, r: nat) {
    && r <= FirstFailure(routes, event) && c.seen != []
    && c == start.(loop := R.Dispatching(event, r, |routes|), visited := c.visited)
    && forall q | 0 <= q < r :: R.Noted(c, q, routes[q].matcher(event))
  }

  /** The dispatch is over: all visits before the first failure are noted, and the loop is free or has ended. */
  ghost predicate Dispatched(start: R.Client, c: R.Client, routes: seq<Route>, event: Message, ok: bool) {
    && c == start.(loop := if ok then R.Idle else R.Stopped, visited := c.visited)
    && forall q | 0 <= q < FirstFailure(routes, event) :: R.Noted(c, q, routes[q].matcher(event))
  }

  lemma VisitingGoesOn(start: R.Client, c: R.Client, routes: seq<Route>, event: Message, r: nat)
    requires Visiting(start, c, routes, event, r) && r < |routes|
    ensures var matched := routes[r].matcher(event);
            if matched && !routes[r].succeeds(event)
            then r == FirstFailure(routes, event) < |routes|
                 && Dispatched(start, R.Apply(c, R.LoopVisit(true, false)), routes, event, false)
            else R.Apply(c, R.LoopVisit(matched, true)).loop.Dispatching?
                 && Visiting(start, R.Apply(c, R.LoopVisit(matched, true)), routes, event, r + 1)
  {
    var matched := routes[r].matcher(event);
    if matched && !routes[r].succeeds(event) {
      var c' := R.Apply(c, R.LoopVisit(true, false));
      assert c' == c.(loop := R.Stopped);
      assert forall q | 0 <= q < r :: R.Noted(c, q, routes[q].matcher(event)) ==> R.Noted(c', q, routes[q].matcher(event));
    } else {
      R.VisitNotes(c, matched);
    }
  }

  lemma VisitingEnds(start: R.Client, c: R.Client, routes: seq<Route>, event: Message)
    requires Visiting(start, c, routes, event, |routes|)
    ensures FirstFailure(routes, event) == |routes|
    ensures Dispatched(start, R.Apply(c, R.LoopVisit(false, true)), routes, event, true)
  {
    var c' := R.Apply(c, R.LoopVisit(false, true));
    assert c' == c.(loop := R.Idle);
    assert forall q | 0 <= q < |routes| :: R.Noted(c, q, routes[q].matcher(event)) ==> R.Noted(c', q, routes[q].matcher(event));
  }
}
