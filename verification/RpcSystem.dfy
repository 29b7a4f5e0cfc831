/**
 One client and one server joined by a FIFO link each way. A step of either side may put a message on a link or
 take one off it; every interleaving of enabled steps is a run.
 */
module RpcSystem {
  import opened Basics
  import opened Bytes
  import opened Headers
  import C = RpcClient
  import S = RpcServer

  datatype Core = Core(client: C.Client, server: S.Server)

  datatype Step = OfClient(c: C.Step) | OfServer(s: S.Step)

  /** What a step does to the links. `Up` leads to the server, `Down` to the client. */
  datatype Effect = Nothing | PushUp(m: Message) | PopUp(m: Message) | PushDown(m: Message) | PopDown(m: Message)

  predicate Enabled(core: Core, step: Step) {
    match step
    case OfClient(c) => C.Enabled(core.client, c)
    case OfServer(s) => S.Enabled(core.server, s)
  }

  function Apply(core: Core, step: Step): Core
    requires Enabled(core, step)
  {
    match step
    case OfClient(c) => core.(client := C.Apply(core.client, c))
    case OfServer(s) => core.(server := S.Apply(core.server, s))
  }

  /** The request of call `k` as it goes out. */
  function Stamped(c: C.Client, k: nat): Message
    requires k < |c.calls|
  {
    C.Stamp(c.calls[k].request, C.Id(c.prefix, k))
  }

  function EffectOf(core: Core, step: Step): Effect
    requires Enabled(core, step)
  {
    match step
    case OfClient(WriteOk(k)) => PushUp(Stamped(core.client, k))
    case OfClient(LoopRead(m)) => PopDown(m)
    case OfServer(Read(m)) => PopUp(m)
    case OfServer(WriteOk(j)) =>
      if core.server.requests[j].response.Some? then PushDown(core.server.requests[j].response.value) else Nothing
    case OfServer(SendEvent(m)) => PushDown(m)
    case _ => Nothing
  }

  /** Everything ever put on the link, and how much of it has been taken off. */
  datatype Link = Link(history: seq<Message>, taken: nat) {
    predicate Has(m: Message) {
      taken < |history| && history[taken] == m
    }
    function Push(m: Message): Link {
      Link(history + [m], taken)
    }
    function Pop(): Link {
      Link(history, taken + 1)
    }
  }

  datatype System = System(core: Core, up: Link, down: Link)

  predicate Possible(sys: System, step: Step) {
    Enabled(sys.core, step) &&
    match EffectOf(sys.core, step)
    case PopUp(m) => sys.up.Has(m)
    case PopDown(m) => sys.down.Has(m)
    case _ => true
  }

  function Next(sys: System, step: Step): System
    requires Possible(sys, step)
  {
    var core := Apply(sys.core, step);
    match EffectOf(sys.core, step)
    case Nothing => System(core, sys.up, sys.down)
    case PushUp(m) => System(core, sys.up.Push(m), sys.down)
    case PopUp(m) => System(core, sys.up.Pop(), sys.down)
    case PushDown(m) => System(core, sys.up, sys.down.Push(m))
    case PopDown(m) => System(core, sys.up, sys.down.Pop())
  }

  function Init(prefix: bytes): System {
    System(Core(C.InitClient(prefix), S.INIT), Link([], 0), Link([], 0))
  }

  ghost predicate Runs(sys: System, steps: seq<Step>, sys': System)
    decreases |steps|
  {
    if steps == [] then sys' == sys
    else Possible(sys, steps[0]) && Runs(Next(sys, steps[0]), steps[1..], sys')
  }

  // ---------------------------------------------------------------- what every step keeps

  /** The link up carries the stamped requests of distinct calls, in the order they were written. */
  predicate UpOk(c: C.Client, up: Link) {
    && |c.written| == |up.history|
    && (forall j | 0 <= j < |c.written| ::
          c.written[j] < |c.calls| && C.WasSent(c.calls[c.written[j]].phase) && up.history[j] == Stamped(c, c.written[j]))
    && (forall i, j | 0 <= i < j < |c.written| :: c.written[i] != c.written[j])
  }

  /** The server has read the beginning of what came up. */
  predicate RequestsOk(s: S.Server, up: Link) {
    && |s.requests| == up.taken <= |up.history|
    && forall j | 0 <= j < |s.requests| :: s.requests[j].message == up.history[j]
  }

  /** The link down carries events, which have no ID, and responses, each that of its request. */
  predicate DownOk(s: S.Server, down: Link) {
    && |s.origins| == |down.history|
    && forall i | 0 <= i < |s.origins| ::
         match s.origins[i]
         case Event => IdOf(down.history[i]) == ""
         case Response(j) =>
           j < |s.requests| && S.HasAttempted(s.requests[j].phase) && s.requests[j].response == Some(down.history[i])
  }

  /** The client has read the beginning of what came down. */
  predicate SeenOk(c: C.Client, down: Link) {
    down.taken <= |down.history| && c.seen == down.history[..down.taken]
  }

  /** The call was handed the message read `i`-th, or its context was done first. */
  predicate Reached(call: C.Call, i: nat) {
    (|call.chan.sent| == 1 && call.source == i) || call.phase == C.Returned(C.Expired)
  }

  /** The message read `i`-th has the ID of call `k`. */
  predicate Answers(seen: seq<Message>, prefix: bytes, i: nat, k: nat)
    requires i < |seen|
  {
    IdOf(seen[i]) == C.Id(prefix, k)
  }

  /** How many messages read have found their call: the settled ones, and one the loop is dispatching. */
  function Routed(c: C.Client): nat {
    if c.loop.Dispatching? then |c.seen| else C.Settled(c)
  }

  /** No response is lost on a call that still waits. */
  predicate NothingLost(c: C.Client) {
    forall i, k | 0 <= i < Routed(c) && i < |c.seen| && 0 <= k < |c.calls| ::
      Answers(c.seen, c.prefix, i, k) ==> Reached(c.calls[k], i)
  }

  ghost predicate Inv(sys: System) {
    && NothingLost(sys.core.client)
    && C.Inv(sys.core.client) && S.Inv(sys.core.server)
    && UpOk(sys.core.client, sys.up) && RequestsOk(sys.core.server, sys.up)
    && DownOk(sys.core.server, sys.down) && SeenOk(sys.core.client, sys.down)
  }

  /** The part of the invariant that ties messages on the links to calls and requests. */
  ghost predicate Linked(c: C.Client, s: S.Server, up: Link, down: Link) {
    && UpOk(c, up) && RequestsOk(s, up) && DownOk(s, down)
    && forall j | 0 <= j < |s.requests| :: S.RequestOk(s.requests[j])
  }

  lemma InvIsLinked(sys: System)
    requires Inv(sys)
    ensures Linked(sys.core.client, sys.core.server, sys.up, sys.down) && SeenOk(sys.core.client, sys.down)
    ensures S.OriginsOk(sys.core.server)
  {
  }

  /** The ID of a request as the server read it is that of the call that wrote it. */
  lemma RequestHasId(c: C.Client, s: S.Server, up: Link, j: nat)
    requires UpOk(c, up) && RequestsOk(s, up) && j < |s.requests|
    ensures j < |c.written| && c.written[j] < |c.calls| && C.WasSent(c.calls[c.written[j]].phase)
    ensures IdOf(s.requests[j].message) == C.Id(c.prefix, c.written[j])
  {
    C.StampHasId(c.calls[c.written[j]].request, C.Id(c.prefix, c.written[j]));
  }

  /** The ID of a response that came down is that of its request, and an event has none. */
  lemma ResponseHasId(s: S.Server, down: Link, i: nat)
    requires DownOk(s, down) && i < |down.history| && forall j | 0 <= j < |s.requests| :: S.RequestOk(s.requests[j])
    ensures i < |s.origins| && (s.origins[i].Event? ==> IdOf(down.history[i]) == "")
    ensures s.origins[i].Response? ==>
              s.origins[i].j < |s.requests| && IdOf(down.history[i]) == IdOf(s.requests[s.origins[i].j].message)
              && s.requests[s.origins[i].j].response == Some(down.history[i])
  {
    if s.origins[i].Response? {
      assert S.RequestOk(s.requests[s.origins[i].j]);
      IdIsFirst(down.history[i]);
    }
  }

  /** A message with the ID of number `k` on the link down is the response to the request of call `k`. */
  lemma LeadsHome(c: C.Client, s: S.Server, up: Link, down: Link, i: nat, k: nat)
    requires Linked(c, s, up, down) && i < |down.history| && IdOf(down.history[i]) == C.Id(c.prefix, k)
    ensures i < |s.origins| && s.origins[i].Response? && s.origins[i].j < |s.requests|
    ensures s.origins[i].j < |c.written| && c.written[s.origins[i].j] == k
    ensures k < |c.calls| && C.WasSent(c.calls[k].phase)
    ensures s.requests[s.origins[i].j].response == Some(down.history[i])
  {
    ResponseHasId(s, down, i);
    C.IdInjective(c.prefix, k, k);
    var j := s.origins[i].j;
    RequestHasId(c, s, up, j);
    C.IdInjective(c.prefix, c.written[j], k);
  }

  /** A message that came down with the ID of number `k` is the response to the request of call `k`. */
  lemma IdLeadsHome(sys: System, i: nat, k: nat) returns (j: nat)
    requires Inv(sys) && i < |sys.down.history|
    requires IdOf(sys.down.history[i]) == C.Id(sys.core.client.prefix, k)
    ensures j < |sys.core.server.requests| && sys.core.server.origins[i] == S.Response(j)
    ensures k < |sys.core.client.calls| && j < |sys.core.client.written| && sys.core.client.written[j] == k
    ensures sys.core.server.requests[j].response == Some(sys.down.history[i])
  {
    InvIsLinked(sys);
    LeadsHome(sys.core.client, sys.core.server, sys.up, sys.down, i, k);
    j := sys.core.server.origins[i].j;
  }

  lemma LastIsSolicited(c: C.Client, s: S.Server, up: Link, down: Link)
    requires Linked(c, s, up, down) && SeenOk(c, down) && c.loop.Handling? && C.LoopOk(c)
    ensures C.Solicited(c, C.LoopRelease)
  {
    var i := |c.seen| - 1;
    assert c.loop.m == down.history[i];
    forall k: nat | k < |c.calls| && IdOf(c.loop.m) == C.Id(c.prefix, k) ensures C.WasSent(c.calls[k].phase) {
      LeadsHome(c, s, up, down, i, k);
    }
  }

  lemma ResponsesAreSolicited(sys: System, step: C.Step)
    requires Inv(sys)
    ensures C.Solicited(sys.core.client, step)
  {
    if step.LoopRelease? && sys.core.client.loop.Handling? {
      InvIsLinked(sys);
      LastIsSolicited(sys.core.client, sys.core.server, sys.up, sys.down);
    }
  }

  lemma OneComesHome(c: C.Client, s: S.Server, up: Link, down: Link, i: nat, i': nat, k: nat)
    requires Linked(c, s, up, down) && S.OriginsOk(s) && i < |down.history| && i' < |down.history|
    requires IdOf(down.history[i]) == C.Id(c.prefix, k) == IdOf(down.history[i'])
    ensures i == i'
  {
    LeadsHome(c, s, up, down, i, k);
    LeadsHome(c, s, up, down, i', k);
  }

  /** No two messages come down with the same call's ID. */
  lemma OneResponsePerId(sys: System, i: nat, i': nat, k: nat)
    requires Inv(sys) && i < |sys.down.history| && i' < |sys.down.history|
    requires IdOf(sys.down.history[i]) == C.Id(sys.core.client.prefix, k)
    requires IdOf(sys.down.history[i']) == C.Id(sys.core.client.prefix, k)
    ensures i == i'
  {
    InvIsLinked(sys);
    OneComesHome(sys.core.client, sys.core.server, sys.up, sys.down, i, i', k);
  }

  /** A sent request that is neither registered nor answered belongs to a call that gave up. */
  lemma GaveUp(c: C.Client, k: nat)
    requires k < |c.calls| && C.CallOk(c, k) && !c.loop.Sending?
    requires !C.InMap(c, k) && C.WasSent(c.calls[k].phase) && c.calls[k].chan.sent == []
    ensures c.calls[k].phase == C.Returned(C.Expired)
  {
  }

  /** What a call was sent came down with its ID. */
  lemma SentHasSource(c: C.Client, k: nat)
    requires C.CallsOk(c) && k < |c.calls|
    ensures |c.calls[k].chan.sent| <= 1
    ensures |c.calls[k].chan.sent| == 1 ==> c.calls[k].source < |c.seen| && Answers(c.seen, c.prefix, c.calls[k].source, k)
    ensures |c.calls[k].chan.sent| == 1 && c.loop.Handling? ==> c.calls[k].source < |c.seen| - 1
  {
    assert C.CallOk(c, k);
  }

  lemma LastIsNew(c: C.Client, s: S.Server, up: Link, down: Link, k: nat)
    requires Linked(c, s, up, down) && S.OriginsOk(s) && SeenOk(c, down) && C.CallsOk(c) && C.LoopOk(c)
    requires c.loop.Handling? && k < |c.calls| && IdOf(c.loop.m) == C.Id(c.prefix, k)
    ensures c.calls[k].chan.sent == [] && C.WasSent(c.calls[k].phase)
  {
    var i, source := |c.seen| - 1, c.calls[k].source;
    assert c.seen[i] == down.history[i];
    LeadsHome(c, s, up, down, i, k);
    SentHasSource(c, k);
    if |c.calls[k].chan.sent| == 1 {
      assert c.seen[source] == down.history[source];
      OneComesHome(c, s, up, down, source, i, k);
    }
  }

  /** The response being handled is not one its call has had before. */
  lemma NotYetSent(sys: System, k: nat)
    requires Inv(sys) && sys.core.client.loop.Handling? && k < |sys.core.client.calls|
    requires IdOf(sys.core.client.loop.m) == C.Id(sys.core.client.prefix, k)
    ensures sys.core.client.calls[k].chan.sent == [] && C.WasSent(sys.core.client.calls[k].phase)
  {
    InvIsLinked(sys);
    LastIsNew(sys.core.client, sys.core.server, sys.up, sys.down, k);
  }

  /** When the loop finds no channel for a response, its call had given up. */
  lemma LateResponse(sys: System, k: nat)
    requires Inv(sys) && sys.core.client.loop.Handling? && k < |sys.core.client.calls|
    requires IdOf(sys.core.client.loop.m) == C.Id(sys.core.client.prefix, k) && !C.InMap(sys.core.client, k)
    ensures sys.core.client.calls[k].phase == C.Returned(C.Expired)
  {
    NotYetSent(sys, k);
    assert C.CallOk(sys.core.client, k);
    GaveUp(sys.core.client, k);
  }

  /** A step leaves the request and, unless it is that call's own, the phase of a call alone. */
  lemma CallStays(c: C.Client, step: C.Step, k: nat)
    requires C.Enabled(c, step) && k < |c.calls|
    ensures var c' := C.Apply(c, step);
            && k < |c'.calls| && c'.calls[k].request == c.calls[k].request && c'.prefix == c.prefix
            && (!(C.IsCallStep(step) && step.k == k) ==> c'.calls[k].phase == c.calls[k].phase)
  {
  }

  lemma OwnStepKeepsSent(c: C.Client, step: C.Step)
    requires C.Enabled(c, step) && C.IsCallStep(step) && C.WasSent(c.calls[step.k].phase)
    ensures C.WasSent(C.Apply(c, step).calls[step.k].phase)
  {
  }

  /** A request once sent counts as sent for ever, and its call keeps its request. */
  lemma CallsOnlyGrow(c: C.Client, step: C.Step, k: nat)
    requires C.Enabled(c, step) && k < |c.calls| && C.WasSent(c.calls[k].phase)
    ensures k < |C.Apply(c, step).calls| && C.WasSent(C.Apply(c, step).calls[k].phase)
    ensures Stamped(C.Apply(c, step), k) == Stamped(c, k)
  {
    CallStays(c, step, k);
    if C.IsCallStep(step) && step.k == k {
      OwnStepKeepsSent(c, step);
    }
  }

  /** What was written stays as it was. */
  lemma WrittenStays(c: C.Client, up: Link, step: C.Step)
    requires UpOk(c, up) && C.Enabled(c, step)
    ensures var c' := C.Apply(c, step);
            forall j | 0 <= j < |c.written| ::
              && c.written[j] < |c'.calls| && C.WasSent(c'.calls[c.written[j]].phase)
              && up.history[j] == Stamped(c', c.written[j])
  {
    forall j | 0 <= j < |c.written|
      ensures var c' := C.Apply(c, step);
              && c.written[j] < |c'.calls| && C.WasSent(c'.calls[c.written[j]].phase)
              && up.history[j] == Stamped(c', c.written[j])
    {
      CallsOnlyGrow(c, step, c.written[j]);
    }
  }

  lemma WriteKeepsUp(c: C.Client, up: Link, k: nat)
    requires UpOk(c, up) && C.Enabled(c, C.WriteOk(k))
    ensures UpOk(C.Apply(c, C.WriteOk(k)), up.Push(Stamped(c, k)))
  {
    WrittenStays(c, up, C.WriteOk(k));
    assert Stamped(C.Apply(c, C.WriteOk(k)), k) == Stamped(c, k);
  }

  lemma OtherKeepsUp(c: C.Client, up: Link, step: C.Step)
    requires UpOk(c, up) && C.Enabled(c, step) && !step.WriteOk?
    ensures UpOk(C.Apply(c, step), up)
  {
    WrittenStays(c, up, step);
    assert C.Apply(c, step).written == c.written;
  }

  lemma ClientStepKeepsUp(sys: System, step: C.Step)
    requires Inv(sys) && Possible(sys, OfClient(step))
    ensures UpOk(Next(sys, OfClient(step)).core.client, Next(sys, OfClient(step)).up)
  {
    if step.WriteOk? {
      WriteKeepsUp(sys.core.client, sys.up, step.k);
    } else {
      OtherKeepsUp(sys.core.client, sys.up, step);
      assert Next(sys, OfClient(step)).up == sys.up;
    }
  }

  /** Nothing that decides whether a call was reached is different. */
  predicate SameReach(c: C.Client, c': C.Client) {
    && c'.prefix == c.prefix && c.seen <= c'.seen && |c'.calls| == |c.calls|
    && forall k | 0 <= k < |c.calls| ::
         && |c'.calls[k].chan.sent| == |c.calls[k].chan.sent| && c'.calls[k].source == c.calls[k].source
         && c'.calls[k].phase == c.calls[k].phase
  }

  /** If nothing more was routed, nothing is lost. */
  lemma LosesNothingFrame(c: C.Client, c': C.Client)
    requires NothingLost(c) && SameReach(c, c') && Routed(c') <= Routed(c) <= |c.seen|
    ensures NothingLost(c')
  {
    forall i, k | 0 <= i < Routed(c') && i < |c'.seen| && 0 <= k < |c'.calls|
                  && Answers(c'.seen, c'.prefix, i, k)
      ensures Reached(c'.calls[k], i)
    {
      assert c'.seen[i] == c.seen[i] && Reached(c.calls[k], i);
    }
  }

  lemma CallStepLosesNothing(c: C.Client, step: C.Step)
    requires NothingLost(c) && C.CallsOk(c) && C.Enabled(c, step) && C.IsCallStep(step)
    ensures NothingLost(C.Apply(c, step))
  {
    var c' := C.Apply(c, step);
    assert C.CallOk(c, step.k);
    forall i, k | 0 <= i < Routed(c') && i < |c'.seen| && 0 <= k < |c'.calls|
                  && Answers(c'.seen, c'.prefix, i, k)
      ensures Reached(c'.calls[k], i)
    {
      assert Reached(c.calls[k], i);
    }
  }

  lemma RegisterLosesNothing(sys: System, request: Message)
    requires Inv(sys) && C.Enabled(sys.core.client, C.Register(request))
    ensures NothingLost(C.Apply(sys.core.client, C.Register(request)))
  {
    var c, c' := sys.core.client, C.Apply(sys.core.client, C.Register(request));
    forall i, k | 0 <= i < Routed(c') && i < |c'.seen| && 0 <= k < |c'.calls|
                  && Answers(c'.seen, c'.prefix, i, k)
      ensures Reached(c'.calls[k], i)
    {
      assert c.seen[i] == sys.down.history[i];
      var j := IdLeadsHome(sys, i, k);
      assert Reached(c.calls[k], i);
    }
  }

  /** The loop dispatches what no call is registered for. */
  lemma DispatchedIsUnregistered(c: C.Client, k: nat)
    requires c.loop.Handling? && C.Apply(c, C.LoopRelease).loop.Dispatching?
    requires IdOf(c.loop.m) == C.Id(c.prefix, k)
    ensures !C.InMap(c, k)
  {
    C.IdInjective(c.prefix, k, k);
  }

  lemma UnclaimedMeansExpired(c: C.Client)
    requires NothingLost(c) && C.LoopOk(c) && c.loop.Handling?
    requires forall k | 0 <= k < |c.calls| && IdOf(c.loop.m) == C.Id(c.prefix, k) ::
               !C.InMap(c, k) ==> c.calls[k].phase == C.Returned(C.Expired)
    ensures NothingLost(C.Apply(c, C.LoopRelease))
  {
    var c', last := C.Apply(c, C.LoopRelease), |c.seen| - 1;
    assert c'.seen == c.seen && c'.calls == c.calls && c'.prefix == c.prefix && c.seen[last] == c.loop.m;
    forall i, k | 0 <= i < Routed(c') && i < |c'.seen| && 0 <= k < |c'.calls|
                  && Answers(c'.seen, c'.prefix, i, k)
      ensures Reached(c'.calls[k], i)
    {
      if i == last {
        DispatchedIsUnregistered(c, k);
      } else {
        assert Reached(c.calls[k], i);
      }
    }
  }

  lemma ReleaseLosesNothing(sys: System)
    requires Inv(sys) && sys.core.client.loop.Handling?
    ensures NothingLost(C.Apply(sys.core.client, C.LoopRelease))
  {
    var c := sys.core.client;
    forall k | 0 <= k < |c.calls| && IdOf(c.loop.m) == C.Id(c.prefix, k) && !C.InMap(c, k)
      ensures c.calls[k].phase == C.Returned(C.Expired)
    {
      LateResponse(sys, k);
    }
    UnclaimedMeansExpired(c);
  }

  lemma SendLosesNothing(c: C.Client)
    requires NothingLost(c) && C.CallsOk(c) && C.LoopOk(c) && C.Enabled(c, C.LoopSend)
    ensures NothingLost(C.Apply(c, C.LoopSend))
  {
    var c' := C.Apply(c, C.LoopSend);
    assert C.CallOk(c, c.loop.k);
    forall i, k | 0 <= i < Routed(c') && i < |c'.seen| && 0 <= k < |c'.calls|
                  && Answers(c'.seen, c'.prefix, i, k)
      ensures Reached(c'.calls[k], i)
    {
      assert Reached(c.calls[k], i);
    }
  }

  /** One more message was routed, to the call `at` whose ID it has. */
  lemma OneMoreReached(c: C.Client, c': C.Client, last: nat, at: nat)
    requires NothingLost(c) && SameReach(c, c') && c'.seen == c.seen && |c.seen| == last + 1
    requires Routed(c) == last && at < |c.calls| && Reached(c.calls[at], last)
    requires forall k | 0 <= k < |c.calls| && Answers(c.seen, c.prefix, last, k) :: k == at
    ensures NothingLost(c')
  {
    forall i, k | 0 <= i < Routed(c') && i < |c'.seen| && 0 <= k < |c'.calls|
                  && Answers(c'.seen, c'.prefix, i, k)
      ensures Reached(c'.calls[k], i)
    {
      assert Reached(c.calls[k], i);
    }
  }

  lemma CloseLosesNothing(c: C.Client)
    requires NothingLost(c) && C.CallsOk(c) && C.LoopOk(c) && C.Enabled(c, C.LoopClose)
    ensures NothingLost(C.Apply(c, C.LoopClose))
  {
    var at, last := c.loop.k, |c.seen| - 1;
    assert C.CallOk(c, at);
    CloseSameReach(c);
    forall k | 0 <= k < |c.calls| && Answers(c.seen, c.prefix, last, k) ensures k == at {
      C.IdInjective(c.prefix, at, k);
    }
    OneMoreReached(c, C.Apply(c, C.LoopClose), last, at);
  }

  lemma CloseSameReach(c: C.Client)
    requires C.Enabled(c, C.LoopClose)
    ensures SameReach(c, C.Apply(c, C.LoopClose)) && C.Apply(c, C.LoopClose).seen == c.seen
  {
  }

  lemma QuietSameReach(c: C.Client, step: C.Step)
    requires C.LoopOk(c) && C.Enabled(c, step)
    requires step.LoopRead? || step.LoopVisit? || step.LoopFails? || step.AddRoute?
    ensures SameReach(c, C.Apply(c, step)) && Routed(C.Apply(c, step)) <= Routed(c) <= |c.seen|
  {
  }

  lemma QuietLosesNothing(c: C.Client, step: C.Step)
    requires NothingLost(c) && C.LoopOk(c) && C.Enabled(c, step)
    requires step.LoopRead? || step.LoopVisit? || step.LoopFails? || step.AddRoute?
    ensures NothingLost(C.Apply(c, step))
  {
    QuietSameReach(c, step);
    LosesNothingFrame(c, C.Apply(c, step));
  }

  lemma ClientStepLosesNothing(sys: System, step: C.Step)
    requires Inv(sys) && Possible(sys, OfClient(step))
    ensures NothingLost(C.Apply(sys.core.client, step))
  {
    var c := sys.core.client;
    if C.IsCallStep(step) {
      CallStepLosesNothing(c, step);
    } else {
      match step {
        case Register(request) => RegisterLosesNothing(sys, request);
        case LoopRelease => ReleaseLosesNothing(sys);
        case LoopSend => SendLosesNothing(c);
        case LoopClose => CloseLosesNothing(c);
        case _ => QuietLosesNothing(c, step);
      }
    }
  }

  lemma ClientStepKeepsSeen(sys: System, step: C.Step)
    requires SeenOk(sys.core.client, sys.down) && Possible(sys, OfClient(step))
    ensures SeenOk(Next(sys, OfClient(step)).core.client, Next(sys, OfClient(step)).down)
  {
    var history, n := sys.down.history, sys.down.taken;
    assert n < |history| ==> history[..n + 1] == history[..n] + [history[n]];
  }

  lemma ClientStepKeepsInv(sys: System, step: C.Step)
    requires Inv(sys) && Possible(sys, OfClient(step))
    ensures Inv(Next(sys, OfClient(step)))
  {
    var sys' := Next(sys, OfClient(step));
    ResponsesAreSolicited(sys, step);
    C.StepKeepsInv(sys.core.client, step);
    ClientStepKeepsUp(sys, step);
    ClientStepLosesNothing(sys, step);
    ClientStepKeepsSeen(sys, step);
    assert sys'.core.server == sys.core.server && sys'.down.history == sys.down.history;
    assert sys'.up.taken == sys.up.taken && sys.up.history <= sys'.up.history;
  }

  /** A response once offered is never changed. */
  lemma ResponsesStay(s: S.Server, step: S.Step, j: nat)
    requires S.Enabled(s, step) && j < |s.requests| && S.HasAttempted(s.requests[j].phase)
    ensures j < |S.Apply(s, step).requests| && S.HasAttempted(S.Apply(s, step).requests[j].phase)
    ensures S.Apply(s, step).requests[j].response == s.requests[j].response
  {
  }

  lemma ServerStepKeepsRequests(sys: System, step: S.Step)
    requires RequestsOk(sys.core.server, sys.up) && Possible(sys, OfServer(step))
    ensures RequestsOk(Next(sys, OfServer(step)).core.server, Next(sys, OfServer(step)).up)
  {
  }

  lemma ServerStepKeepsDown(sys: System, step: S.Step)
    requires S.Inv(sys.core.server) && DownOk(sys.core.server, sys.down) && Possible(sys, OfServer(step))
    ensures DownOk(Next(sys, OfServer(step)).core.server, Next(sys, OfServer(step)).down)
  {
    var s, s', down' := sys.core.server, S.Apply(sys.core.server, step), Next(sys, OfServer(step)).down;
    if step.WriteOk? {
      assert S.RequestOk(s.requests[step.j]);
    }
    assert s.origins <= s'.origins && sys.down.history <= down'.history;
    forall i | 0 <= i < |s.origins| && s.origins[i].Response?
      ensures s'.origins[i].j < |s'.requests| && S.HasAttempted(s'.requests[s'.origins[i].j].phase)
      ensures s'.requests[s'.origins[i].j].response == Some(down'.history[i])
    {
      ResponsesStay(s, step, s.origins[i].j);
    }
  }

  lemma ServerStepKeepsInv(sys: System, step: S.Step)
    requires Inv(sys) && Possible(sys, OfServer(step))
    ensures Inv(Next(sys, OfServer(step)))
  {
    S.StepKeepsInv(sys.core.server, step);
    ServerStepKeepsRequests(sys, step);
    ServerStepKeepsDown(sys, step);
    ServerStepKeepsClient(sys, step);
  }

  lemma ServerStepKeepsClient(sys: System, step: S.Step)
    requires Possible(sys, OfServer(step)) && UpOk(sys.core.client, sys.up) && SeenOk(sys.core.client, sys.down)
    ensures var sys' := Next(sys, OfServer(step));
            sys'.core.client == sys.core.client && UpOk(sys'.core.client, sys'.up) && SeenOk(sys'.core.client, sys'.down)
  {
    var sys' := Next(sys, OfServer(step));
    assert sys'.core.client == sys.core.client && sys'.up.history == sys.up.history;
    assert sys'.down.taken == sys.down.taken && sys.down.history <= sys'.down.history;
  }

  lemma {:induction false} RunsKeepInv(sys: System, steps: seq<Step>, sys': System)
    requires Inv(sys) && Runs(sys, steps, sys')
    ensures Inv(sys')
    decreases |steps|
  {
    if steps != [] {
      match steps[0] {
        case OfClient(c) => ClientStepKeepsInv(sys, c);
        case OfServer(s) => ServerStepKeepsInv(sys, s);
      }
      RunsKeepInv(Next(sys, steps[0]), steps[1..], sys');
    }
  }

  lemma LinksInit(c: C.Client, s: S.Server, link: Link)
    requires c.written == [] && c.seen == [] && s.requests == [] && s.origins == [] && link == Link([], 0)
    ensures NothingLost(c)
    ensures UpOk(c, link) && RequestsOk(s, link) && DownOk(s, link) && SeenOk(c, link)
  {
  }

  lemma InitInv(prefix: bytes)
    ensures Inv(Init(prefix))
  {
    C.InitInv(prefix);
    S.InitInv();
    LinksInit(C.InitClient(prefix), S.INIT, Link([], 0));
  }

  lemma InvFromInit(prefix: bytes, steps: seq<Step>, sys: System)
    requires Runs(Init(prefix), steps, sys)
    ensures Inv(sys)
  {
    InitInv(prefix);
    RunsKeepInv(Init(prefix), steps, sys);
  }

  // ---------------------------------------------------------------- what every run guarantees

  /** Request `j`, as the server read it, is the one call `k` sent; no other request is; and `m` is its response. */
  ghost predicate AnsweredBy(core: Core, k: nat, j: nat, m: Message) {
    var c, s := core.client, core.server;
    && k < |c.calls| && j < |s.requests| && j < |c.written|
    && s.requests[j].message == Stamped(c, k)
    && s.requests[j].response == Some(m) && S.HasAttempted(s.requests[j].phase)
    && forall i | 0 <= i < |c.written| :: c.written[i] == k <==> i == j
  }

  /** A call that returns a message returns the one response the server produced for that call's own request. */
  lemma AnswerIsOwn(prefix: bytes, steps: seq<Step>, sys: System, k: nat, m: Message) returns (j: nat)
    requires Runs(Init(prefix), steps, sys)
    requires k < |sys.core.client.calls| && sys.core.client.calls[k].phase == C.Returned(C.Answered(m))
    ensures AnsweredBy(sys.core, k, j, m)
  {
    InvFromInit(prefix, steps, sys);
    var c := sys.core.client;
    assert C.CallOk(c, k);
    j := IdLeadsHome(sys, c.calls[k].source, k);
  }

  /**
   Every event the server wrote before the response of an answered call was dispatched, and each route there was when
   the event was read had its handler finish without error or its matcher decline, before the call could return.
   */
  lemma EventsComeFirst(prefix: bytes, steps: seq<Step>, sys: System, k: nat, i: nat)
    requires Runs(Init(prefix), steps, sys)
    requires k < |sys.core.client.calls| && |sys.core.client.calls[k].chan.sent| > 0
    requires i < sys.core.client.calls[k].source && i < |sys.core.server.origins| && sys.core.server.origins[i].Event?
    ensures sys.core.client.calls[k].source < |sys.down.history|
    ensures sys.core.client.calls[k].chan.sent[0] == sys.down.history[sys.core.client.calls[k].source]
    ensures i < |sys.core.client.routesAt|
    ensures forall r | 0 <= r < sys.core.client.routesAt[i] :: (i, r) in sys.core.client.visited
  {
    InvFromInit(prefix, steps, sys);
    var c := sys.core.client;
    assert C.CallOk(c, k);
    assert i < |c.seen| - 1 && c.seen[i] == sys.down.history[i];
    assert C.EventHandled(c, i);
  }

  /** A response the client is done with has reached the call it answers, unless that call's context was done first. */
  lemma ResponseNotLost(prefix: bytes, steps: seq<Step>, sys: System, i: nat) returns (k: nat)
    requires Runs(Init(prefix), steps, sys)
    requires i < C.Settled(sys.core.client) && i < |sys.core.server.origins| && sys.core.server.origins[i].Response?
    ensures k < |sys.core.client.calls| && sys.core.server.origins[i].j < |sys.core.client.written|
    ensures k == sys.core.client.written[sys.core.server.origins[i].j]
    ensures i < |sys.down.history|
    ensures sys.core.client.calls[k].chan.sent == [sys.down.history[i]] || sys.core.client.calls[k].phase == C.Returned(C.Expired)
  {
    InvFromInit(prefix, steps, sys);
    var c, s := sys.core.client, sys.core.server;
    var j := s.origins[i].j;
    k := c.written[j];
    assert S.RequestOk(s.requests[j]);
    IdIsFirst(sys.down.history[i]);
    C.StampHasId(c.calls[k].request, C.Id(c.prefix, k));
    assert c.seen[i] == sys.down.history[i];
    assert C.CallOk(c, k);
    assert Reached(c.calls[k], i);
  }

  /** The call has neither been handed its response nor given up. */
  predicate Pending(c: C.Client, k: nat)
    requires k < |c.calls|
  {
    && (c.calls[k].phase.Registered? || c.calls[k].phase.FailedWrite? || c.calls[k].phase.Waiting? || c.calls[k].phase.Expiring?)
    && c.calls[k].chan.sent == [] && !(c.loop.Sending? && c.loop.k == k)
  }

  /**
   `results` holds exactly the IDs of pending calls, each leading to its own channel. A channel is sent to at most
   once, closed at most once and not sent to once closed: a send the loop is about to make finds it open and empty, and
   a waiting call never finds its channel closed without a response in it.
   */
  lemma ChannelDiscipline(prefix: bytes, steps: seq<Step>, sys: System)
    requires Runs(Init(prefix), steps, sys)
    ensures forall k | 0 <= k < |sys.core.client.calls| :: C.InMap(sys.core.client, k) <==> Pending(sys.core.client, k)
    ensures forall id | id in sys.core.client.results ::
              sys.core.client.results[id] < |sys.core.client.calls|
              && id == C.Id(prefix, sys.core.client.results[id])
    ensures forall k | 0 <= k < |sys.core.client.calls| ::
              && |sys.core.client.calls[k].chan.sent| <= 1 && sys.core.client.calls[k].chan.closes <= 1
              && (sys.core.client.calls[k].phase.Returned? ==> !C.InMap(sys.core.client, k))
              && (sys.core.client.calls[k].phase.Waiting? && sys.core.client.calls[k].chan.sent == [] ==>
                    sys.core.client.calls[k].chan.closes == 0)
    ensures sys.core.client.loop.Sending? ==>
              && C.Enabled(sys.core.client, C.LoopSend)
              && sys.core.client.calls[sys.core.client.loop.k].chan == C.FRESH
  {
    InvFromInit(prefix, steps, sys);
    PrefixIsFixed(Init(prefix), steps, sys);
    var c := sys.core.client;
    forall k | 0 <= k < |c.calls|
      ensures C.InMap(c, k) <==> Pending(c, k)
      ensures |c.calls[k].chan.sent| <= 1 && c.calls[k].chan.closes <= 1
      ensures c.calls[k].phase.Returned? ==> !C.InMap(c, k)
      ensures c.calls[k].phase.Waiting? && c.calls[k].chan.sent == [] ==> c.calls[k].chan.closes == 0
    {
      assert C.CallOk(c, k);
    }
    if c.loop.Sending? {
      assert C.CallOk(c, c.loop.k);
    }
  }

  lemma {:induction false} PrefixIsFixed(sys: System, steps: seq<Step>, sys': System)
    requires Runs(sys, steps, sys')
    ensures sys'.core.client.prefix == sys.core.client.prefix
    decreases |steps|
  {
    if steps != [] {
      PrefixIsFixed(Next(sys, steps[0]), steps[1..], sys');
    }
  }
}
