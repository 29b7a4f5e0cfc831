/**
 The client of interop/rpc_client.go as a state machine over its atomic steps: every critical section, channel
 operation, write and handler call is one step, and steps of any number of calls interleave freely with those
 of the receive loop.
 */
module RpcClient {
  import opened Bytes
  import opened Headers

  /** A response channel of capacity one: everything ever sent on it, and how often it was closed. */
  datatype Chan = Chan(sent: seq<Message>, taken: nat, closes: nat)

  const FRESH: Chan := Chan([], 0, 0)

  datatype CallOutcome = Answered(response: Message) | WriteFailed | Expired

  /** Where a `SendContext` call stands. */
  datatype Phase =
    | Registered
    | FailedWrite   // the write returned an error; the ID is still registered
    | Released      // ... and no longer is; the channel is about to be closed
    | Waiting       // blocked in the select
    | Expiring      // the context is done; the ID is about to be released
    | Returned(outcome: CallOutcome)

  /** `source` is the position, among all messages the loop has read, of the one sent on the channel. */
  datatype Call = Call(request: Message, chan: Chan, phase: Phase, source: nat)

  /** Where the receive loop stands. */
  datatype Loop =
    | Idle
    | Handling(m: Message)
    | Sending(k: nat, m: Message)
    | ClosingChan(k: nat)
    | Dispatching(m: Message, next: nat, limit: nat)
    | Stopped

  /**
   `calls[k]` is the call that drew number k, and `results` gives the call whose channel an ID is registered for.
   The rest are histories: `written` the calls in the order their requests were written, `seen` the messages read and
   `routesAt` how many routes there were when each was read, `dispatched` how many the dispatch of the i-th one covers, and
   `visited` for each of those routes whether its handler ran to the end (true) or its matcher declined (false).
   */
  datatype Client = Client(
    prefix: bytes, nextId: nat, results: map<bytes, nat>, calls: seq<Call>, loop: Loop, routes: nat,
    written: seq<nat>, seen: seq<Message>, routesAt: seq<nat>, dispatched: map<nat, nat>, visited: map<(nat, nat), bool>)

  function Id(prefix: bytes, k: nat): bytes {
    prefix + Decimal(k)
  }

  /** The message a call writes: its request with exactly one ID header. */
  function Stamp(request: Message, id: bytes): Message {
    request.(headers := Set(request.headers, ID_NAME, id))
  }

  lemma StampHasId(request: Message, id: bytes)
    ensures IdOf(Stamp(request, id)) == id && IdsOf(Stamp(request, id)) == [id]
  {
    SetId(request.headers, id, request.body);
  }

  /** Nothing but the ID differs: the body is the request's, and so are the other headers, in their order. */
  lemma StampKeepsRequest(request: Message, id: bytes)
    ensures Stamp(request, id).body == request.body
    ensures OnlyDiffersIn(request.headers, Stamp(request, id).headers, ID_NAME)
  {
    SetOnlyDiffers(request.headers, ID_NAME, id);
  }

  function InitClient(prefix: bytes): Client {
    Client(prefix, 0, map[], [], Idle, 0, [], [], [], map[], map[])
  }

  datatype Step =
    | Register(request: Message)
    | WriteOk(k: nat) | WriteFails(k: nat) | ReleaseFailed(k: nat) | CloseFailed(k: nat)
    | TakeResponse(k: nat) | Expire(k: nat) | ReleaseExpired(k: nat)
    | LoopRead(m: Message) | LoopRelease | LoopSend | LoopClose | LoopVisit(matched: bool, ok: bool) | LoopFails
    | AddRoute

  predicate InPhase(c: Client, k: nat, p: Phase) {
    k < |c.calls| && c.calls[k].phase == p
  }

  predicate Enabled(c: Client, step: Step) {
    match step
    case Register(_) => |c.calls| < TWO_64
    case WriteOk(k) => InPhase(c, k, Registered)
    case WriteFails(k) => InPhase(c, k, Registered)
    case ReleaseFailed(k) => InPhase(c, k, FailedWrite)
    case CloseFailed(k) => InPhase(c, k, Released)
    case TakeResponse(k) => InPhase(c, k, Waiting) && c.calls[k].chan.taken < |c.calls[k].chan.sent|
    case Expire(k) => InPhase(c, k, Waiting)
    case ReleaseExpired(k) => InPhase(c, k, Expiring)
    case LoopRead(_) => c.loop.Idle?
    case LoopRelease => c.loop.Handling?
    case LoopSend => c.loop.Sending? && c.loop.k < |c.calls|
                     && |c.calls[c.loop.k].chan.sent| == c.calls[c.loop.k].chan.taken
    case LoopClose => c.loop.ClosingChan? && c.loop.k < |c.calls|
    case LoopVisit(_, _) => c.loop.Dispatching? && |c.seen| > 0
    case LoopFails => c.loop.Idle?
    case AddRoute => true
  }

  function SetPhase(c: Client, k: nat, p: Phase): Client
    requires k < |c.calls|
  {
    c.(calls := c.calls[k := c.calls[k].(phase := p)])
  }

  /** `releaseResponseChan`: forget the ID. */
  function Release(c: Client, id: bytes): Client {
    c.(results := c.results - {id})
  }

  /** `Dispatch` begins: it visits the routes there are now, in order. */
  function StartDispatch(c: Client, m: Message): Client {
    c.(loop := Dispatching(m, 0, c.routes),
       dispatched := if c.seen == [] then c.dispatched else c.dispatched[|c.seen| - 1 := c.routes])
  }

  function Visit(c: Client, matched: bool, ok: bool): Client
    requires c.loop.Dispatching? && |c.seen| > 0
  {
    var Dispatching(m, next, limit) := c.loop;
    if next >= limit then c.(loop := Idle)
    else if matched && !ok then c.(loop := Stopped)
    else c.(loop := Dispatching(m, next + 1, limit), visited := c.visited[(|c.seen| - 1, next) := matched])
  }

  /** The first critical section of `SendContext`; the 64-bit counter wraps. */
  function WithCall(c: Client, request: Message): Client {
    c.(nextId := (c.nextId + 1) % TWO_64,
       results := c.results[Id(c.prefix, c.nextId) := |c.calls|],
       calls := c.calls + [Call(request, FRESH, Registered, 0)])
  }

  function Apply(c: Client, step: Step): Client
    requires Enabled(c, step)
  {
    match step
    case Register(request) => WithCall(c, request)
    case WriteOk(k) => SetPhase(c, k, Waiting).(written := c.written + [k])
    case WriteFails(k) => SetPhase(c, k, FailedWrite)
    case ReleaseFailed(k) => Release(SetPhase(c, k, Released), Id(c.prefix, k))
    case CloseFailed(k) =>
      c.(calls := c.calls[k := c.calls[k].(phase := Returned(WriteFailed),
                                           chan := c.calls[k].chan.(closes := c.calls[k].chan.closes + 1))])
    case TakeResponse(k) =>
      var ch := c.calls[k].chan;
      c.(calls := c.calls[k := c.calls[k].(phase := Returned(Answered(ch.sent[ch.taken])),
                                           chan := ch.(taken := ch.taken + 1))])
    case Expire(k) => SetPhase(c, k, Expiring)
    case ReleaseExpired(k) => Release(SetPhase(c, k, Returned(Expired)), Id(c.prefix, k))
    case LoopRead(m) => c.(loop := Handling(m), seen := c.seen + [m], routesAt := c.routesAt + [c.routes])
    case LoopRelease =>
      var m := c.loop.m;
      var id := IdOf(m);
      if id != "" && id in c.results then Release(c, id).(loop := Sending(c.results[id], m))
      else StartDispatch(c, m)
    case LoopSend =>
      var Sending(k, m) := c.loop;
      c.(calls := c.calls[k := c.calls[k].(chan := c.calls[k].chan.(sent := c.calls[k].chan.sent + [m]),
                                           source := if c.seen == [] then 0 else |c.seen| - 1)],
         loop := ClosingChan(k))
    case LoopClose =>
      var k := c.loop.k;
      c.(calls := c.calls[k := c.calls[k].(chan := c.calls[k].chan.(closes := c.calls[k].chan.closes + 1))],
         loop := Idle)
    case LoopVisit(matched, ok) => Visit(c, matched, ok)
    case LoopFails => c.(loop := Stopped)
    case AddRoute => c.(routes := c.routes + 1)
  }

  // ---------------------------------------------------------------- what every step keeps

  predicate InMap(c: Client, k: nat) {
    Id(c.prefix, k) in c.results
  }

  /** The request reached the link. */
  predicate WasSent(p: Phase) {
    p.Waiting? || p.Expiring? || (p.Returned? && !p.outcome.WriteFailed?)
  }

  /** The channel discipline of one call. */
  predicate CallOk(c: Client, k: nat)
    requires k < |c.calls|
  {
    var Call(_, ch, p, source) := c.calls[k];
    && (InMap(c, k) ==> ch == FRESH && (p.Registered? || p.FailedWrite? || p.Waiting? || p.Expiring?))
    && (p.Registered? || p.FailedWrite? ==> InMap(c, k))
    && (p.Released? ==> !InMap(c, k) && ch == FRESH)
    && (p == Returned(WriteFailed) ==> ch == Chan([], 0, 1))
    && (!InMap(c, k) && (p.Waiting? || p.Expiring?) && !(c.loop.Sending? && c.loop.k == k) ==> |ch.sent| == 1)
    && (p.Returned? && p.outcome.Answered? ==> ch.sent == [p.outcome.response] && ch.taken == 1)
    && (ch.taken != 0 ==> p.Returned? && p.outcome.Answered?)
    && (c.loop.Sending? && c.loop.k == k ==> !InMap(c, k) && ch == FRESH && WasSent(p))
    && (c.loop.ClosingChan? && c.loop.k == k ==> |ch.sent| == 1 && ch.closes == 0 && source + 1 == |c.seen|)
    && (|ch.sent| >= 1 ==> |ch.sent| == 1 && WasSent(p)
                           && ch.closes == if c.loop.ClosingChan? && c.loop.k == k then 0 else 1)
    && (ch.sent == [] ==> ch.closes == if p == Returned(WriteFailed) then 1 else 0)
    && (|ch.sent| == 1 && (c.loop.Handling? || c.loop.Sending?) ==> source + 1 < |c.seen|)
    && (|ch.sent| == 1 ==>
          source < |c.seen| && ch.sent[0] == c.seen[source] && IdOf(ch.sent[0]) == Id(c.prefix, k))
  }

  predicate CallsOk(c: Client) {
    && |c.calls| <= TWO_64 && c.nextId == |c.calls| % TWO_64
    && (forall id | id in c.results :: c.results[id] < |c.calls| && id == Id(c.prefix, c.results[id]))
    && (forall k | 0 <= k < |c.calls| :: CallOk(c, k))
  }

  /** The loop works on the message it read last. */
  predicate LoopOk(c: Client) {
    && |c.routesAt| == |c.seen| && (forall i | 0 <= i < |c.routesAt| :: c.routesAt[i] <= c.routes)
    && match c.loop
    case Handling(m) => c.seen != [] && c.seen[|c.seen| - 1] == m
    case Sending(k, m) => k < |c.calls| && c.seen != [] && c.seen[|c.seen| - 1] == m
                          && IdOf(m) == Id(c.prefix, k)
    case ClosingChan(k) => k < |c.calls| && c.seen != [] && IdOf(c.seen[|c.seen| - 1]) != ""
    case Dispatching(m, next, limit) =>
      c.seen != [] && c.seen[|c.seen| - 1] == m && next <= limit
      && |c.seen| - 1 in c.dispatched && c.dispatched[|c.seen| - 1] == limit && c.routesAt[|c.seen| - 1] <= limit
    case Idle => true
    case Stopped => true
  }

  /** How many of the messages read so far the loop is completely done with. */
  function Settled(c: Client): nat {
    if c.loop.Idle? then |c.seen| else if c.seen == [] then 0 else |c.seen| - 1
  }

  /** Message `i` was dispatched, and none of its first `n` routes was left out. */
  predicate Visited(c: Client, i: nat, n: nat) {
    i in c.dispatched && forall r | 0 <= r < n :: (i, r) in c.visited
  }

  /** If message `i` carries no ID, it was dispatched to all the routes there were when it was read, if not more. */
  predicate EventHandled(c: Client, i: nat)
    requires i < |c.seen|
  {
    IdOf(c.seen[i]) == "" ==>
      i < |c.routesAt| && i in c.dispatched && c.routesAt[i] <= c.dispatched[i] && Visited(c, i, c.dispatched[i])
  }

  /** The loop turns to the next message only when the handlers of the last one have finished. */
  predicate EventsOk(c: Client) {
    && (forall i | 0 <= i < Settled(c) :: EventHandled(c, i))
    && (c.loop.Dispatching? && c.seen != [] ==> Visited(c, |c.seen| - 1, c.loop.next))
  }

  ghost predicate Inv(c: Client) {
    CallsOk(c) && LoopOk(c) && EventsOk(c)
  }

  lemma IdInjective(prefix: bytes, a: nat, b: nat)
    ensures Id(prefix, a) == Id(prefix, b) ==> a == b
    ensures Id(prefix, a) != ""
  {
    if Id(prefix, a) == Id(prefix, b) {
      DecimalInjective(prefix, a, b);
    }
  }

  /** An ID is the prefix and the numeral of the call's number. */
  lemma IdReadsBack(prefix: bytes, k: nat)
    ensures prefix <= Id(prefix, k) && AllDigits(Id(prefix, k)[|prefix|..]) && DecimalValue(Id(prefix, k)[|prefix|..]) == k
  {
    DecimalRoundTrip(k);
    assert Id(prefix, k)[|prefix|..] == Decimal(k);
  }

  /** What the rest of the system must guarantee: a response carries the ID of a call whose request was sent. */
  predicate Solicited(c: Client, step: Step) {
    step.LoopRelease? && c.loop.Handling? ==>
      forall k: nat | k < |c.calls| && IdOf(c.loop.m) == Id(c.prefix, k) :: WasSent(c.calls[k].phase)
  }

  /** Steps of calls: they touch one call, and not the loop. */
  predicate IsCallStep(step: Step) {
    step.WriteOk? || step.WriteFails? || step.ReleaseFailed? || step.CloseFailed? || step.TakeResponse?
    || step.Expire? || step.ReleaseExpired?
  }

  /** A call is indifferent to what does not concern it. */
  lemma CallFrame(c: Client, c': Client, k: nat)
    requires k < |c.calls| && k < |c'.calls| && CallOk(c, k)
    requires c'.calls[k] == c.calls[k] && c'.prefix == c.prefix && c.seen <= c'.seen
    requires c.loop.ClosingChan? ==> c'.seen == c.seen
    requires (c'.loop.Handling? || c'.loop.Sending?) && !c.loop.Handling? && !c.loop.Sending? ==> |c.seen| < |c'.seen|
    requires InMap(c', k) == InMap(c, k)
    requires (c.loop.Sending? && c.loop.k == k) == (c'.loop.Sending? && c'.loop.k == k)
    requires (c.loop.ClosingChan? && c.loop.k == k) == (c'.loop.ClosingChan? && c'.loop.k == k)
    ensures CallOk(c', k)
  {
  }

  lemma EventsFrame(c: Client, c': Client)
    requires EventsOk(c) && LoopOk(c)
    requires c'.seen == c.seen && c'.loop == c.loop && c'.dispatched == c.dispatched && c'.visited == c.visited
    requires c'.routesAt == c.routesAt && c.routes <= c'.routes
    requires |c.calls| <= |c'.calls| && c'.prefix == c.prefix
    ensures EventsOk(c') && LoopOk(c')
  {
    forall i | 0 <= i < Settled(c') ensures EventHandled(c', i) {
      assert EventHandled(c, i);
    }
  }

  lemma OwnStepKeepsCall(c: Client, step: Step)
    requires IsCallStep(step) && step.k < |c.calls| && CallOk(c, step.k) && Enabled(c, step)
    ensures CallOk(Apply(c, step), step.k)
  {
  }

  lemma CallStepKeepsCall(c: Client, step: Step, k: nat)
    requires CallsOk(c) && Enabled(c, step) && IsCallStep(step) && k < |c.calls|
    ensures CallOk(Apply(c, step), k)
  {
    assert CallOk(c, k);
    if k == step.k {
      OwnStepKeepsCall(c, step);
    } else {
      IdInjective(c.prefix, step.k, k);
      CallFrame(c, Apply(c, step), k);
    }
  }

  lemma CallStepKeepsInv(c: Client, step: Step)
    requires Inv(c) && Enabled(c, step) && IsCallStep(step)
    ensures Inv(Apply(c, step))
  {
    var c' := Apply(c, step);
    forall k | 0 <= k < |c'.calls| ensures CallOk(c', k) {
      CallStepKeepsCall(c, step, k);
    }
    EventsFrame(c, c');
  }

  lemma RegisterKeepsCall(c: Client, request: Message, k: nat)
    requires CallsOk(c) && LoopOk(c) && Enabled(c, Register(request)) && k <= |c.calls|
    ensures CallOk(Apply(c, Register(request)), k)
  {
    if k < |c.calls| {
      assert CallOk(c, k);
      IdInjective(c.prefix, |c.calls|, k);
      CallFrame(c, Apply(c, Register(request)), k);
    }
  }

  lemma RegisterKeepsInv(c: Client, request: Message)
    requires Inv(c) && Enabled(c, Register(request))
    ensures Inv(Apply(c, Register(request)))
  {
    var c' := Apply(c, Register(request));
    forall k | 0 <= k < |c'.calls| ensures CallOk(c', k) {
      RegisterKeepsCall(c, request, k);
    }
    RegisterKeepsMap(c, request);
    EventsFrame(c, c');
  }

  lemma RegisterKeepsMap(c: Client, request: Message)
    requires CallsOk(c) && Enabled(c, Register(request))
    ensures var c' := Apply(c, Register(request));
            && |c'.calls| <= TWO_64 && c'.nextId == |c'.calls| % TWO_64
            && forall id | id in c'.results :: c'.results[id] < |c'.calls| && id == Id(c'.prefix, c'.results[id])
  {
    var n := |c.calls|;
    assert n % TWO_64 == n;
  }

  lemma ReleaseKeepsCall(c: Client, k: nat)
    requires CallsOk(c) && LoopOk(c) && c.loop.Handling? && Solicited(c, LoopRelease) && k < |c.calls|
    ensures CallOk(Apply(c, LoopRelease), k)
  {
    assert CallOk(c, k);
    var id := IdOf(c.loop.m);
    IdInjective(c.prefix, k, k);
    if id in c.results {
      IdInjective(c.prefix, c.results[id], k);
    }
    if id != Id(c.prefix, k) {
      CallFrame(c, Apply(c, LoopRelease), k);
    }
  }

  lemma AnswerKeepsCall(c: Client, step: Step, k: nat)
    requires CallsOk(c) && LoopOk(c) && Enabled(c, step) && (step.LoopSend? || step.LoopClose?) && k < |c.calls|
    ensures CallOk(Apply(c, step), k)
  {
    assert CallOk(c, k);
    if k != c.loop.k {
      CallFrame(c, Apply(c, step), k);
    }
  }

  lemma LoopStepKeepsCall(c: Client, step: Step, k: nat)
    requires CallsOk(c) && LoopOk(c) && Enabled(c, step) && !IsCallStep(step) && !step.Register?
    requires Solicited(c, step) && k < |c.calls|
    ensures CallOk(Apply(c, step), k)
  {
    if step.LoopRelease? {
      ReleaseKeepsCall(c, k);
    } else if step.LoopSend? || step.LoopClose? {
      AnswerKeepsCall(c, step, k);
    } else {
      assert CallOk(c, k);
      CallFrame(c, Apply(c, step), k);
    }
  }

  lemma ReleaseKeepsLoop(c: Client)
    requires CallsOk(c) && LoopOk(c) && c.loop.Handling?
    ensures LoopOk(Apply(c, LoopRelease))
  {
    var c', id := Apply(c, LoopRelease), IdOf(c.loop.m);
    if id != "" && id in c.results {
      assert c' == c.(results := c.results - {id}, loop := Sending(c.results[id], c.loop.m));
    } else {
      assert c' == StartDispatch(c, c.loop.m);
    }
  }

  lemma VisitKeepsLoop(c: Client, matched: bool, ok: bool)
    requires LoopOk(c) && c.loop.Dispatching?
    ensures LoopOk(Visit(c, matched, ok))
  {
  }

  lemma SendKeepsLoop(c: Client)
    requires LoopOk(c) && Enabled(c, LoopSend)
    ensures LoopOk(Apply(c, LoopSend))
  {
    IdInjective(c.prefix, c.loop.k, c.loop.k);
    ClosingLoopOk(c, Apply(c, LoopSend));
  }

  lemma ClosingLoopOk(c: Client, c': Client)
    requires LoopOk(c) && c'.routesAt == c.routesAt && c'.seen == c.seen && c'.routes == c.routes
    requires c'.loop.ClosingChan? && c'.loop.k < |c'.calls|
    requires c.seen != [] && IdOf(c.seen[|c.seen| - 1]) != ""
    ensures LoopOk(c')
  {
  }

  lemma ReadKeepsLoop(c: Client, m: Message)
    requires LoopOk(c) && c.loop.Idle?
    ensures LoopOk(Apply(c, LoopRead(m)))
  {
  }

  lemma CloseKeepsLoop(c: Client)
    requires LoopOk(c) && Enabled(c, LoopClose)
    ensures LoopOk(Apply(c, LoopClose))
  {
    EndedLoopOk(c, Apply(c, LoopClose));
  }

  lemma FailKeepsLoop(c: Client)
    requires LoopOk(c) && c.loop.Idle?
    ensures LoopOk(Apply(c, LoopFails))
  {
    EndedLoopOk(c, Apply(c, LoopFails));
  }

  lemma AddRouteKeepsLoop(c: Client)
    requires LoopOk(c)
    ensures LoopOk(Apply(c, AddRoute))
  {
    var c' := Apply(c, AddRoute);
    assert c' == c.(routes := c.routes + 1);
    assert forall i | 0 <= i < |c'.routesAt| :: c'.routesAt[i] == c.routesAt[i] <= c'.routes;
  }

  lemma EndedLoopOk(c: Client, c': Client)
    requires LoopOk(c) && c'.routesAt == c.routesAt && c'.seen == c.seen && c'.routes == c.routes
    requires c'.loop.Idle? || c'.loop.Stopped?
    ensures LoopOk(c')
  {
  }

  lemma LoopStepKeepsLoop(c: Client, step: Step)
    requires CallsOk(c) && LoopOk(c) && Enabled(c, step) && !IsCallStep(step) && !step.Register?
    ensures LoopOk(Apply(c, step))
  {
    match step {
      case LoopRelease => ReleaseKeepsLoop(c);
      case LoopSend => SendKeepsLoop(c);
      case LoopVisit(matched, ok) => VisitKeepsLoop(c, matched, ok);
      case LoopRead(m) => ReadKeepsLoop(c, m);
      case LoopClose => CloseKeepsLoop(c);
      case LoopFails => FailKeepsLoop(c);
      case AddRoute => AddRouteKeepsLoop(c);
    }
  }

  predicate VisitsGrow(c: Client, c': Client) {
    && c'.seen == c.seen && c'.routesAt == c.routesAt && c'.dispatched == c.dispatched
    && forall key | key in c.visited :: key in c'.visited
  }

  lemma HandledStays(c: Client, c': Client, i: nat)
    requires VisitsGrow(c, c') && i < |c.seen| && EventHandled(c, i)
    ensures EventHandled(c', i)
  {
  }

  /** The last route of the current message was visited: it is settled. */
  lemma LastVisit(c: Client)
    requires LoopOk(c) && EventsOk(c) && c.loop.Dispatching? && c.loop.next >= c.loop.limit
    ensures EventsOk(c.(loop := Idle))
  {
    var c', at := c.(loop := Idle), |c.seen| - 1;
    forall i | 0 <= i < Settled(c') ensures EventHandled(c', i) {
      if i < at {
        HandledStays(c, c', i);
      } else {
        assert Visited(c, at, c.loop.next);
      }
    }
  }

  /** One visit leaves the visits of every settled message alone, and adds one for the current message. */
  lemma NextVisit(c: Client, c': Client)
    requires EventsOk(c) && c.loop.Dispatching? && c.seen != [] && VisitsGrow(c, c')
    requires c'.loop.Stopped? || (c'.loop.Dispatching? && c'.loop.next == c.loop.next + 1)
    requires c'.loop.Dispatching? ==> (|c.seen| - 1, c.loop.next) in c'.visited
    ensures EventsOk(c')
  {
    forall i | 0 <= i < Settled(c') ensures EventHandled(c', i) {
      HandledStays(c, c', i);
    }
    assert Visited(c, |c.seen| - 1, c.loop.next);
  }

  lemma VisitKeepsEvents(c: Client, matched: bool, ok: bool)
    requires LoopOk(c) && EventsOk(c) && c.loop.Dispatching?
    ensures EventsOk(Visit(c, matched, ok))
  {
    if c.loop.next >= c.loop.limit {
      LastVisit(c);
    } else {
      NextVisit(c, Visit(c, matched, ok));
    }
  }

  /** Settled messages stay settled while the loop moves on to the message it read last. */
  lemma EventsCarryOver(c: Client, c': Client)
    requires EventsOk(c) && c.seen <= c'.seen && c'.visited == c.visited && c.routesAt <= c'.routesAt
    requires forall i | 0 <= i < Settled(c) :: (i in c'.dispatched) == (i in c.dispatched)
                                            && (i in c.dispatched ==> c'.dispatched[i] == c.dispatched[i])
    requires forall i | Settled(c) <= i < Settled(c') :: IdOf(c'.seen[i]) != ""
    requires c'.loop.Dispatching? && c'.seen != [] ==> c'.loop.next == 0 && |c'.seen| - 1 in c'.dispatched
    ensures EventsOk(c')
  {
    forall i | 0 <= i < Settled(c') ensures EventHandled(c', i) {
      if i < Settled(c) {
        assert EventHandled(c, i);
      }
    }
  }

  lemma ReleaseKeepsEvents(c: Client)
    requires LoopOk(c) && EventsOk(c) && c.loop.Handling?
    ensures EventsOk(Apply(c, LoopRelease))
  {
    var c' := Apply(c, LoopRelease);
    assert Settled(c) == Settled(c') == |c.seen| - 1;
    EventsCarryOver(c, c');
  }

  lemma ReadKeepsEvents(c: Client, m: Message)
    requires LoopOk(c) && EventsOk(c) && c.loop.Idle?
    ensures EventsOk(Apply(c, LoopRead(m)))
  {
    var c' := Apply(c, LoopRead(m));
    assert Settled(c') == Settled(c);
    EventsCarryOver(c, c');
  }

  lemma SendKeepsEvents(c: Client)
    requires LoopOk(c) && EventsOk(c) && Enabled(c, LoopSend)
    ensures EventsOk(Apply(c, LoopSend))
  {
    EventsCarryOver(c, Apply(c, LoopSend));
  }

  /** The message of a response is settled, and no event. */
  lemma ResponseSettles(c: Client, c': Client)
    requires EventsOk(c) && VisitsGrow(c, c') && c'.loop.Idle? && c.seen != [] && Settled(c) == |c.seen| - 1
    requires IdOf(c.seen[|c.seen| - 1]) != ""
    ensures EventsOk(c')
  {
    forall i | 0 <= i < Settled(c') ensures EventHandled(c', i) {
      if i < Settled(c) {
        HandledStays(c, c', i);
      } else {
        assert c'.seen[i] == c.seen[|c.seen| - 1];
      }
    }
  }

  lemma CloseKeepsEvents(c: Client)
    requires LoopOk(c) && EventsOk(c) && Enabled(c, LoopClose)
    ensures EventsOk(Apply(c, LoopClose))
  {
    ResponseSettles(c, Apply(c, LoopClose));
  }

  lemma FailKeepsEvents(c: Client)
    requires EventsOk(c) && c.loop.Idle?
    ensures EventsOk(Apply(c, LoopFails))
  {
    EventsCarryOver(c, Apply(c, LoopFails));
  }

  lemma LoopStepKeepsEvents(c: Client, step: Step)
    requires LoopOk(c) && EventsOk(c) && Enabled(c, step) && !IsCallStep(step) && !step.Register?
    ensures EventsOk(Apply(c, step))
  {
    match step {
      case LoopRead(m) => ReadKeepsEvents(c, m);
      case LoopRelease => ReleaseKeepsEvents(c);
      case LoopVisit(matched, ok) => VisitKeepsEvents(c, matched, ok);
      case AddRoute => EventsFrame(c, Apply(c, step));
      case LoopSend => SendKeepsEvents(c);
      case LoopClose => CloseKeepsEvents(c);
      case LoopFails => FailKeepsEvents(c);
      case _ =>
    }
  }

  lemma StepKeepsInv(c: Client, step: Step)
    requires Inv(c) && Enabled(c, step) && Solicited(c, step)
    ensures Inv(Apply(c, step))
  {
    if IsCallStep(step) {
      CallStepKeepsInv(c, step);
    } else if step.Register? {
      RegisterKeepsInv(c, step.request);
    } else {
      var c' := Apply(c, step);
      forall k | 0 <= k < |c'.calls| ensures CallOk(c', k) {
        LoopStepKeepsCall(c, step, k);
      }
      LoopStepKeepsLoop(c, step);
      LoopStepKeepsEvents(c, step);
    }
  }

  lemma InitInv(prefix: bytes)
    ensures Inv(InitClient(prefix))
  {
    var c := InitClient(prefix);
    assert c.nextId == |c.calls| % TWO_64;
  }

  // ---------------------------------------------------------------- what each step finds

  /** The next ID is registered for nobody. */
  lemma RegisterFindsFree(c: Client)
    requires Inv(c) && |c.calls| < TWO_64
    ensures c.nextId == |c.calls| && Id(c.prefix, c.nextId) !in c.results
  {
    var n, id := |c.calls|, Id(c.prefix, |c.calls|);
    assert n % TWO_64 == n;
    if id in c.results {
      IdInjective(c.prefix, c.results[id], n);
    }
  }

  /** Counter, map and channels are the same: what the code keeps outside its goroutines' own variables. */
  predicate SameShared(c: Client, c': Client) {
    && c'.prefix == c.prefix && c'.nextId == c.nextId && c'.results == c.results && |c'.calls| == |c.calls|
    && forall k | 0 <= k < |c.calls| :: c'.calls[k].chan == c.calls[k].chan
  }

  predicate IsQuiet(step: Step) {
    step.WriteOk? || step.WriteFails? || step.Expire? || step.LoopRead? || step.LoopVisit?
  }

  lemma QuietStepShares(c: Client, step: Step)
    requires Enabled(c, step) && IsQuiet(step)
    ensures SameShared(c, Apply(c, step))
  {
  }

  lemma QuietStepKeepsInv(c: Client, step: Step)
    requires Inv(c) && Enabled(c, step) && IsQuiet(step)
    ensures Inv(Apply(c, step)) && SameShared(c, Apply(c, step))
  {
    StepKeepsInv(c, step);
    QuietStepShares(c, step);
  }

  /** The visit of a route that matched or not was noted, for the message the loop works on. */
  predicate Noted(c: Client, r: nat, matched: bool) {
    (|c.seen| - 1, r) in c.visited && c.visited[(|c.seen| - 1, r)] == matched
  }

  lemma VisitNotes(c: Client, matched: bool)
    requires c.loop.Dispatching? && c.seen != [] && c.loop.next < c.loop.limit
    ensures var c' := Apply(c, LoopVisit(matched, true));
            && c' == c.(loop := Dispatching(c.loop.m, c.loop.next + 1, c.loop.limit), visited := c'.visited)
            && Noted(c', c.loop.next, matched)
            && forall q: nat, b | q != c.loop.next :: Noted(c, q, b) ==> Noted(c', q, b)
  {
  }

  /** What looking up a message's ID does to the map and to the loop. */
  lemma ReleaseEffect(c: Client)
    requires c.loop.Handling?
    ensures var c', id := Apply(c, LoopRelease), IdOf(c.loop.m);
            && c'.calls == c.calls && c'.prefix == c.prefix && c'.nextId == c.nextId
            && c'.results == (if id == "" then c.results else c.results - {id})
            && if id != "" && id in c.results then c'.loop == Sending(c.results[id], c.loop.m)
               else c'.loop == Dispatching(c.loop.m, 0, c.routes)
  {
    var id := IdOf(c.loop.m);
    if id !in c.results {
      assert c.results - {id} == c.results;
    }
  }

  lemma DispatchingHasSeen(c: Client)
    requires Inv(c) && c.loop.Dispatching?
    ensures c.seen != []
  {
  }

  lemma SendFindsUnused(c: Client)
    requires Inv(c) && c.loop.Sending?
    ensures Enabled(c, LoopSend) && c.calls[c.loop.k].chan == FRESH
  {
    assert CallOk(c, c.loop.k);
  }

  lemma CloseFindsOpen(c: Client)
    requires Inv(c) && c.loop.ClosingChan?
    ensures Enabled(c, LoopClose) && c.calls[c.loop.k].chan.closes == 0
  {
    assert CallOk(c, c.loop.k);
  }

  lemma ReleasedFindsUnused(c: Client, k: nat)
    requires Inv(c) && InPhase(c, k, Released)
    ensures c.calls[k].chan == FRESH
  {
    assert CallOk(c, k);
  }

  // ---------------------------------------------------------------- past the wrap

  /** What is left of the invariant when the counter may have wrapped: an entry's ID is its call's number, modulo 2^64. */
  predicate MapOk(c: Client) {
    && c.nextId == |c.calls| % TWO_64
    && forall id | id in c.results :: c.results[id] < |c.calls| && id == Id(c.prefix, c.results[id] % TWO_64)
  }

  /** Some call that is still registered drew the number that comes next, a multiple of 2^64 calls ago. */
  predicate Collides(c: Client) {
    exists id :: id in c.results && c.results[id] % TWO_64 == |c.calls| % TWO_64
  }

  lemma CollidesExactly(c: Client)
    requires MapOk(c)
    ensures Collides(c) <==> Id(c.prefix, c.nextId) in c.results
  {
    var next := Id(c.prefix, c.nextId);
    if Collides(c) {
      var id :| id in c.results && c.results[id] % TWO_64 == |c.calls| % TWO_64;
      assert id == next;
    }
    if next in c.results {
      IdInjective(c.prefix, c.results[next] % TWO_64, c.nextId);
    }
  }

  lemma NextWraps(n: nat)
    ensures (n % TWO_64 + 1) % TWO_64 == (n + 1) % TWO_64
  {
  }

  lemma WithCallKeepsMap(c: Client, request: Message)
    requires MapOk(c)
    ensures MapOk(WithCall(c, request))
  {
    NextWraps(|c.calls|);
  }

  /** No registered call loses its entry exactly if none drew the number that comes next. */
  lemma WrappedRegisterExactly(c: Client, request: Message)
    requires MapOk(c)
    ensures MapOk(WithCall(c, request))
    ensures (forall k | k in c.results.Values :: k in WithCall(c, request).results.Values) <==> !Collides(c)
  {
    var c', next := WithCall(c, request), Id(c.prefix, c.nextId);
    WithCallKeepsMap(c, request);
    CollidesExactly(c);
    if !Collides(c) {
      forall k | k in c.results.Values ensures k in c'.results.Values {
        var id :| id in c.results && c.results[id] == k;
        assert c'.results[id] == k;
      }
    } else {
      LosesEntry(c, request);
    }
  }

  /** A colliding call takes over the older one's ID: no ID leads to the older call any more. */
  lemma LosesEntry(c: Client, request: Message)
    requires MapOk(c) && Id(c.prefix, c.nextId) in c.results
    ensures var c', next := WithCall(c, request), Id(c.prefix, c.nextId);
            && c'.results[next] == |c.calls|
            && c.results[next] !in c'.results.Values
  {
    var c', next := WithCall(c, request), Id(c.prefix, c.nextId);
    var lost := c.results[next];
    assert next == Id(c.prefix, lost % TWO_64);
    forall id | id in c'.results ensures c'.results[id] != lost {
    }
  }

  /** ... so that the older call's response goes to the newer one. */
  lemma ResponseGoesAstray(c: Client, request: Message, m: Message)
    requires MapOk(c) && Id(c.prefix, c.nextId) in c.results
    requires IdOf(m) == Id(c.prefix, c.results[Id(c.prefix, c.nextId)] % TWO_64)
    ensures Apply(WithCall(c, request).(loop := Handling(m)), LoopRelease).loop == Sending(|c.calls|, m)
  {
    IdInjective(c.prefix, c.nextId, c.nextId);
    assert IdOf(m) == Id(c.prefix, c.nextId);
  }
}
