/**
 A run of RpcOverBytes in which something is written behind part of a message, and the answer theorem fails: a call returns
 the response to a request that nobody made.
 */
module TornRuns {
  import opened Basics
  import opened Bytes
  import opened Headers
  import opened WireCodec
  import opened TornWrites
  import opened RpcSystem
  import opened RpcOverBytes
  import C = RpcClient
  import S = RpcServer

  // ---------------------------------------------------------------- the messages

  /** A request without body or ID, with its ID. */
  lemma StampBare(hs: seq<Header>, id: bytes)
    requires GetAll(hs, ID_NAME) == []
    ensures C.Stamp(Message(hs, []), id) == Message(hs + [NewHeader(ID_NAME, id)], [])
  {
    DeleteNothing(hs, ID_NAME);
  }

  predicate PlainHeader(h: Header) {
    GoodHeader(h) && h.name != ID_NAME && h.name != LENGTH_NAME
  }

  lemma PlainMessage(h: Header)
    requires PlainHeader(h)
    ensures WellFormed(Message([h], [])) && GetAll([h], ID_NAME) == []
  {
    IdNameCanonical();
    NotAmong(h, ID_NAME);
    NotAmong(h, LENGTH_NAME);
    UnframedEmpty([h]);
  }

  lemma NotAmong(h: Header, key: bytes)
    requires h.name != key
    ensures FirstOf([h], key) == "" && AllOf([h], key) == []
  {
    assert [h][1..] == [];
    assert FirstOf([h][1..], key) == "" && AllOf([h][1..], key) == [];
  }

  lemma UnframedEmpty(hs: seq<Header>)
    requires GoodHeaders(hs) && LengthOf(hs) == ""
    ensures WellFormed(Message(hs, []))
  {
  }

  /** A request torn right behind its header `h`. */
  lemma TornBehindHeader(h: Header, id: bytes)
    requires PlainHeader(h) && GoodValue(id)
    ensures C.Stamp(Message([h], []), id) == Message([h, NewHeader(ID_NAME, id)], [])
    ensures WellFormed(C.Stamp(Message([h], []), id))
    ensures Print(C.Stamp(Message([h], []), id)) == HeaderLine(h) + Print(Message([NewHeader(ID_NAME, id)], []))
  {
    var own := NewHeader(ID_NAME, id);
    PlainMessage(h);
    StampBare([h], id);
    assert [h] + [own] == [h, own];
    SetKeepsWellFormed(Message([h], []), id);
    PrintTwo(h, own);
  }

  lemma PrintTwo(h: Header, own: Header)
    ensures Print(Message([h, own], [])) == HeaderLine(h) + Print(Message([own], []))
  {
    assert [h, own][1..] == [own];
    assert PrintHeaders([h, own]) == HeaderLine(h) + PrintHeaders([own]);
    Regroup(HeaderLine(h), PrintHeaders([own]), [LF], [] + [LF]);
    Regroup(PrintHeaders([own]), [LF], [], [LF]);
    assert PrintHeaders([own]) + [LF] + [] == PrintHeaders([own]) + [LF];
  }

  /** The request without headers that is written behind it is read with `h` in front. */
  lemma NextTakesHeader(h: Header, id: bytes)
    requires PlainHeader(h) && GoodValue(id)
    ensures C.Stamp(Message([], []), id) == Message([NewHeader(ID_NAME, id)], [])
    ensures WellFormed(C.Stamp(Message([], []), id))
    ensures ReadMessage(HeaderLine(h) + Print(C.Stamp(Message([], []), id))) == Got(C.Stamp(Message([h], []), id), [])
  {
    StampBare([], id);
    SetKeepsWellFormed(Message([], []), id);
    TornBehindHeader(h, id);
    var both := C.Stamp(Message([h], []), id);
    RoundTrip(both, []);
    assert Print(both) + [] == Print(both);
  }

  /** The request that is read is neither call's. */
  lemma NobodysRequest(h: Header, id0: bytes, id1: bytes)
    requires PlainHeader(h) && GoodValue(id0) && GoodValue(id1) && id0 != id1
    ensures C.Stamp(Message([h], []), id1) != C.Stamp(Message([h], []), id0)
    ensures C.Stamp(Message([h], []), id1) != C.Stamp(Message([], []), id1)
  {
    TornBehindHeader(h, id0);
    TornBehindHeader(h, id1);
    StampBare([], id1);
    assert [h, NewHeader(ID_NAME, id1)][1] != [h, NewHeader(ID_NAME, id0)][1];
  }

  // ---------------------------------------------------------------- the calls

  lemma {:induction false} ByteRunsOneMore(b: ByteSystem, steps: seq<ByteStep>, b1: ByteSystem, step: ByteStep)
    requires ByteRuns(b, steps, b1) && BytePossible(b1, step)
    ensures ByteRuns(b, steps + [step], ByteNext(b1, step))
    decreases |steps|
  {
    if steps == [] {
      assert ByteRuns(ByteNext(b, step), [step][1..], ByteNext(b1, step));
    } else {
      assert (steps + [step])[1..] == steps[1..] + [step];
      ByteRunsOneMore(ByteNext(b, steps[0]), steps[1..], b1, step);
    }
  }

  ghost predicate Reachable(prefix: bytes, b: ByteSystem) {
    exists steps :: ByteRuns(ByteInit(prefix), steps, b)
  }

  lemma ReachableStep(prefix: bytes, b: ByteSystem, step: ByteStep)
    requires Reachable(prefix, b) && BytePossible(b, step)
    ensures Reachable(prefix, ByteNext(b, step))
  {
    var steps :| ByteRuns(ByteInit(prefix), steps, b);
    ByteRunsOneMore(ByteInit(prefix), steps, b, step);
  }

  /** These are the requests of the client's calls so far, and its loop is idle. */
  predicate Asked(c: C.Client, prefix: bytes, requests: seq<Message>) {
    && c.prefix == prefix && c.loop.Idle? && c.nextId == |c.calls| == |requests|
    && forall k | 0 <= k < |requests| :: c.calls[k].request == requests[k]
  }

  /** Only the client has done something. */
  ghost predicate Calling(prefix: bytes, b: ByteSystem, requests: seq<Message>) {
    Reachable(prefix, b) && b.core.server == S.INIT && b.down == EMPTY && Asked(b.core.client, prefix, requests)
  }

  /** Call `k` is in the phase, its channel is new, and its ID leads to it. */
  predicate Stands(c: C.Client, k: nat, p: C.Phase) {
    && k < |c.calls| && c.calls[k].phase == p && c.calls[k].chan == C.FRESH
    && C.Id(c.prefix, k) in c.results && c.results[C.Id(c.prefix, k)] == k
  }

  lemma RegisterEffect(c: C.Client, prefix: bytes, requests: seq<Message>, request: Message)
    requires Asked(c, prefix, requests) && |requests| + 1 < TWO_64
    ensures var c' := C.Apply(c, C.Register(request));
            Asked(c', prefix, requests + [request]) && Stands(c', |requests|, C.Registered)
  {
    var n := |c.calls| + 1;
    assert n % TWO_64 == n;
  }

  lemma CallRegisters(prefix: bytes, b: ByteSystem, requests: seq<Message>, request: Message) returns (b': ByteSystem)
    requires Calling(prefix, b, requests) && |requests| + 1 < TWO_64
    ensures Calling(prefix, b', requests + [request]) && b'.up == b.up && Stands(b'.core.client, |requests|, C.Registered)
  {
    var step := Whole(OfClient(C.Register(request)));
    RegisterEffect(b.core.client, prefix, requests, request);
    ReachableStep(prefix, b, step);
    b' := ByteNext(b, step);
  }

  lemma WriteEffect(c: C.Client, prefix: bytes, requests: seq<Message>, k: nat)
    requires Asked(c, prefix, requests) && Stands(c, k, C.Registered)
    ensures Asked(C.Apply(c, C.WriteFails(k)), prefix, requests)
    ensures Asked(C.Apply(c, C.WriteOk(k)), prefix, requests) && Stands(C.Apply(c, C.WriteOk(k)), k, C.Waiting)
  {
  }

  lemma CallTears(prefix: bytes, b: ByteSystem, requests: seq<Message>, k: nat, cut: nat) returns (b': ByteSystem)
    requires Calling(prefix, b, requests) && Stands(b.core.client, k, C.Registered) && Cut(Stamped(b.core.client, k), cut)
    ensures Calling(prefix, b', requests) && b'.up == b.up.Tear(Print(Stamped(b.core.client, k))[..cut])
  {
    var step := Torn(OfClient(C.WriteFails(k)), cut);
    WriteEffect(b.core.client, prefix, requests, k);
    ReachableStep(prefix, b, step);
    b' := ByteNext(b, step);
  }

  lemma CallWrites(prefix: bytes, b: ByteSystem, requests: seq<Message>, k: nat) returns (b': ByteSystem)
    requires Calling(prefix, b, requests) && Stands(b.core.client, k, C.Registered) && WellFormed(Stamped(b.core.client, k))
    ensures Calling(prefix, b', requests) && b'.up == b.up.Write(Print(Stamped(b.core.client, k)))
    ensures Stands(b'.core.client, k, C.Waiting)
  {
    var step := Whole(OfClient(C.WriteOk(k)));
    WriteEffect(b.core.client, prefix, requests, k);
    ReachableStep(prefix, b, step);
    b' := ByteNext(b, step);
  }

  lemma NobodyCalls(prefix: bytes)
    ensures Calling(prefix, ByteInit(prefix), [])
  {
    assert ByteRuns(ByteInit(prefix), [], ByteInit(prefix));
  }

  /** A call that fails right behind its only header. */
  lemma FirstCallTears(prefix: bytes, h: Header) returns (b: ByteSystem)
    requires GoodPrefix(prefix) && PlainHeader(h)
    ensures Calling(prefix, b, [] + [Message([h], [])]) && b.up.data == HeaderLine(h)
  {
    NobodyCalls(prefix);
    b := CallRegisters(prefix, ByteInit(prefix), [], Message([h], []));
    var id, line := C.Id(prefix, 0), HeaderLine(h);
    IdIsGoodValue(prefix, 0);
    TornBehindHeader(h, id);
    var text := Print(C.Stamp(Message([h], []), id));
    b := CallTears(prefix, b, [] + [Message([h], [])], 0, |line|);
    assert text[..|line|] == line;
  }

  /** A second call without headers, written behind the first. */
  lemma SecondCallWrites(prefix: bytes, h: Header, requests: seq<Message>) returns (b: ByteSystem)
    requires GoodPrefix(prefix) && PlainHeader(h) && requests == [Message([h], []), Message([], [])]
    ensures Calling(prefix, b, requests) && Stands(b.core.client, 1, C.Waiting)
    ensures b.up.data == HeaderLine(h) + Print(C.Stamp(Message([], []), C.Id(prefix, 1)))
  {
    var one := [] + [Message([h], [])];
    assert one + [Message([], [])] == requests;
    b := FirstCallTears(prefix, h);
    b := CallRegisters(prefix, b, one, Message([], []));
    IdIsGoodValue(prefix, 1);
    NextTakesHeader(h, C.Id(prefix, 1));
    b := CallWrites(prefix, b, requests, 1);
  }

  // ---------------------------------------------------------------- the answer

  /** The server has read `m` and answers it with `response`, which the client is about to read. */
  predicate Answering(b: ByteSystem, m: Message, response: Message) {
    && |b.core.server.requests| == 1 && b.core.server.requests[0].message == m
    && WellFormed(response) && b.down.data == Print(response)
    && IdOf(response) == IdOf(m)
  }

  lemma ResponseFits(m: Message) returns (response: Message)
    requires GoodHeaders(m.headers)
    ensures response == S.Finish(m, Message([], []), None) && WellFormed(response)
    ensures IdOf(response) == IdOf(m)
  {
    response := S.Finish(m, Message([], []), None);
    FinishWellFormed(m, Message([], []), None);
    S.FinishHasOneId(m, Message([], []), None);
    IdIsFirst(response);
  }

  lemma ServerReads(prefix: bytes, b: ByteSystem, m: Message) returns (b': ByteSystem)
    requires Reachable(prefix, b) && b.core.server == S.INIT && Yields(b.up, m)
    ensures Reachable(prefix, b') && b'.core.client == b.core.client && b'.down == b.down
    ensures b'.core.server == S.INIT.(requests := [S.Request(m, S.Responding, None)], outstanding := 1)
  {
    var step := Whole(OfServer(S.Read(m)));
    ReachableStep(prefix, b, step);
    b' := ByteNext(b, step);
    assert [] + [S.Request(m, S.Responding, None)] == [S.Request(m, S.Responding, None)];
  }

  lemma ServerResponds(prefix: bytes, b: ByteSystem, m: Message) returns (b': ByteSystem)
    requires Reachable(prefix, b) && S.InPhase(b.core.server, 0, S.Responding)
    requires |b.core.server.requests| == 1 && b.core.server.requests[0].message == m
    ensures Reachable(prefix, b') && b'.core.client == b.core.client && b'.down == b.down
    ensures b'.core.server.requests == [S.Request(m, S.Writing, Some(S.Finish(m, Message([], []), None)))]
  {
    var step := Whole(OfServer(S.Respond(0, Message([], []), None)));
    ReachableStep(prefix, b, step);
    b' := ByteNext(b, step);
  }

  lemma WriteOkEffect(s: S.Server, m: Message, response: Message)
    requires s.requests == [S.Request(m, S.Writing, Some(response))]
    ensures |S.Apply(s, S.WriteOk(0)).requests| == 1 && S.Apply(s, S.WriteOk(0)).requests[0].message == m
  {
  }

  lemma ServerWrites(prefix: bytes, b: ByteSystem, m: Message, response: Message) returns (b': ByteSystem)
    requires Reachable(prefix, b) && b.core.server.requests == [S.Request(m, S.Writing, Some(response))]
    requires WellFormed(response) && b.down == EMPTY && IdOf(response) == IdOf(m)
    ensures Reachable(prefix, b') && b'.core.client == b.core.client && Answering(b', m, response)
  {
    var step := OfServer(S.WriteOk(0));
    WriteOkEffect(b.core.server, m, response);
    WrittenFirst(response);
    ReachableStep(prefix, b, Whole(step));
    b' := b.(core := Apply(b.core, step), down := EMPTY.Write(Print(response)));
    assert b' == ByteNext(b, Whole(step));
  }

  lemma WrittenFirst(m: Message)
    ensures EMPTY.Write(Print(m)).data == Print(m)
  {
    assert [] + Print(m) == Print(m);
  }

  lemma YieldsPrinted(stream: Stream, m: Message)
    requires stream.data == Print(m) && WellFormed(m)
    ensures Yields(stream, m)
  {
    RoundTrip(m, []);
    assert Print(m) + [] == Print(m);
  }

  lemma SendEffect(c: C.Client, k: nat, m: Message)
    requires k < |c.calls| && c.calls[k].phase.Waiting? && c.calls[k].chan == C.FRESH && c.loop == C.Sending(k, m)
    ensures C.Enabled(c, C.LoopSend) && C.Enabled(C.Apply(c, C.LoopSend), C.TakeResponse(k))
    ensures var c' := C.Apply(C.Apply(c, C.LoopSend), C.TakeResponse(k));
            && c'.prefix == c.prefix && |c'.calls| == |c.calls|
            && c'.calls[k].phase == C.Returned(C.Answered(m))
            && forall i | 0 <= i < |c.calls| :: c'.calls[i].request == c.calls[i].request
  {
  }

  lemma ReadEffect(c: C.Client, k: nat, m: Message)
    requires Stands(c, k, C.Waiting) && c.loop.Idle?
    ensures var c' := C.Apply(c, C.LoopRead(m));
            && c'.loop == C.Handling(m) && c'.calls == c.calls && c'.prefix == c.prefix && Stands(c', k, C.Waiting)
  {
  }

  lemma ClientReads(prefix: bytes, b: ByteSystem, k: nat, m: Message) returns (b': ByteSystem)
    requires Reachable(prefix, b) && Stands(b.core.client, k, C.Waiting) && b.core.client.loop.Idle? && Yields(b.down, m)
    ensures Reachable(prefix, b') && b'.core.server == b.core.server
    ensures Stands(b'.core.client, k, C.Waiting) && b'.core.client.loop == C.Handling(m)
    ensures b'.core.client.calls == b.core.client.calls && b'.core.client.prefix == b.core.client.prefix
  {
    var step := OfClient(C.LoopRead(m));
    ReadEffect(b.core.client, k, m);
    PopsDown(b, m);
    ReachableStep(prefix, b, Whole(step));
    b' := ByteNext(b, Whole(step));
  }

  lemma PopsDown(b: ByteSystem, m: Message)
    requires b.core.client.loop.Idle? && Yields(b.down, m)
    ensures var step := OfClient(C.LoopRead(m));
            BytePossible(b, Whole(step))
            && ByteNext(b, Whole(step)) == b.(core := Apply(b.core, step), down := b.down.Advance())
  {
  }

  lemma ClientRoutes(prefix: bytes, b: ByteSystem, k: nat, m: Message) returns (b': ByteSystem)
    requires Reachable(prefix, b) && Stands(b.core.client, k, C.Waiting) && b.core.client.loop == C.Handling(m)
    requires IdOf(m) == C.Id(b.core.client.prefix, k)
    ensures Reachable(prefix, b') && b'.core.server == b.core.server && b'.core.client.loop == C.Sending(k, m)
    ensures b'.core.client.calls == b.core.client.calls && b'.core.client.prefix == b.core.client.prefix
  {
    var step := Whole(OfClient(C.LoopRelease));
    C.IdInjective(b.core.client.prefix, k, k);
    C.ReleaseEffect(b.core.client);
    ReachableStep(prefix, b, step);
    b' := ByteNext(b, step);
  }

  lemma ClientTakes(prefix: bytes, b: ByteSystem, k: nat, m: Message) returns (b': ByteSystem)
    requires Reachable(prefix, b) && k < |b.core.client.calls| && b.core.client.calls[k].phase.Waiting?
    requires b.core.client.calls[k].chan == C.FRESH && b.core.client.loop == C.Sending(k, m)
    ensures Reachable(prefix, b') && b'.core.server == b.core.server && |b'.core.client.calls| == |b.core.client.calls|
    ensures b'.core.client.calls[k].phase == C.Returned(C.Answered(m)) && b'.core.client.prefix == b.core.client.prefix
    ensures forall i | 0 <= i < |b.core.client.calls| :: b'.core.client.calls[i].request == b.core.client.calls[i].request
  {
    SendEffect(b.core.client, k, m);
    var send, take := Whole(OfClient(C.LoopSend)), Whole(OfClient(C.TakeResponse(k)));
    ReachableStep(prefix, b, send);
    ReachableStep(prefix, ByteNext(b, send), take);
    b' := ByteNext(ByteNext(b, send), take);
  }

  /** A reached state in which the server answers whatever request bears the ID of a waiting call: that call returns. */
  lemma WhoeverWaitsIsAnswered(prefix: bytes, b: ByteSystem, k: nat, m: Message)
      returns (b': ByteSystem, response: Message)
    requires Reachable(prefix, b) && b.core.server == S.INIT && b.down == EMPTY && Yields(b.up, m)
    requires Stands(b.core.client, k, C.Waiting) && b.core.client.loop.Idle?
    requires IdOf(m) == C.Id(b.core.client.prefix, k) && GoodHeaders(m.headers)
    ensures Reachable(prefix, b') && k < |b'.core.client.calls| == |b.core.client.calls|
    ensures b'.core.client.calls[k].phase == C.Returned(C.Answered(response)) && b'.core.client.prefix == b.core.client.prefix
    ensures |b'.core.server.requests| == 1 && b'.core.server.requests[0].message == m
    ensures forall i | 0 <= i < |b.core.client.calls| :: b'.core.client.calls[i].request == b.core.client.calls[i].request
  {
    response := ResponseFits(m);
    b' := ServerReads(prefix, b, m);
    b' := ServerResponds(prefix, b', m);
    b' := ServerWrites(prefix, b', m, response);
    YieldsPrinted(b'.down, response);
    b' := ClientReads(prefix, b', k, response);
    b' := ClientRoutes(prefix, b', k, response);
    b' := ClientTakes(prefix, b', k, response);
  }

  /** The request with `h` in front waits to be read, under the ID of a call that did not make it. */
  lemma StrayRequest(prefix: bytes, h: Header, k: nat, m: Message) returns (b: ByteSystem)
    requires GoodPrefix(prefix) && PlainHeader(h) && k == 1 && m == C.Stamp(Message([h], []), C.Id(prefix, k))
    ensures Calling(prefix, b, [Message([h], []), Message([], [])]) && Stands(b.core.client, k, C.Waiting)
    ensures Yields(b.up, m) && GoodHeaders(m.headers) && IdOf(m) == C.Id(prefix, k)
  {
    b := SecondCallWrites(prefix, h, [Message([h], []), Message([], [])]);
    IdIsGoodValue(prefix, k);
    NextTakesHeader(h, C.Id(prefix, k));
    TornBehindHeader(h, C.Id(prefix, k));
    ReadsOwnId(h, C.Id(prefix, k));
  }

  lemma AnswersNobody(core: Core, k: nat, m: Message)
    requires |core.server.requests| == 1 && k < |core.client.calls|
    requires core.server.requests[0].message != Stamped(core.client, k)
    ensures forall j :: !AnsweredBy(core, k, j, m)
  {
  }

  /** The proviso of the answer theorem is needed: here a call returns what answers no request of any call. */
  lemma TornRequestMixes(prefix: bytes, h: Header, k: nat) returns (b: ByteSystem, response: Message)
    requires GoodPrefix(prefix) && PlainHeader(h) && k == 1
    ensures Reachable(prefix, b) && |b.core.client.calls| == 2
    ensures b.core.client.calls[k].phase == C.Returned(C.Answered(response))
    ensures forall j :: !AnsweredBy(b.core, k, j, response)
  {
    var m := C.Stamp(Message([h], []), C.Id(prefix, k));
    b := StrayRequest(prefix, h, k, m);
    b, response := WhoeverWaitsIsAnswered(prefix, b, k, m);
    NotOurs(prefix, h, b.core.client, k);
    AnswersNobody(b.core, k, response);
  }

  lemma ReadsOwnId(h: Header, id: bytes)
    ensures IdOf(C.Stamp(Message([h], []), id)) == id
  {
    C.StampHasId(Message([h], []), id);
  }

  lemma NotOurs(prefix: bytes, h: Header, c: C.Client, k: nat)
    requires GoodPrefix(prefix) && PlainHeader(h) && c.prefix == prefix && k < |c.calls|
    requires c.calls[k].request == Message([], [])
    ensures C.Stamp(Message([h], []), C.Id(prefix, k)) != Stamped(c, k)
  {
    IdIsGoodValue(prefix, k);
    IdIsGoodValue(prefix, k + 1);
    C.IdInjective(prefix, k, k + 1);
    NobodysRequest(h, C.Id(prefix, k + 1), C.Id(prefix, k));
  }
}
