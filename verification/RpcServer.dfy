/**
 The server of interop/rpc_server.go as a state machine over its atomic steps: the `Run` loop, one responder
 goroutine per request with its deferred write, the wait group and the error channel of capacity two.
 */
module RpcServer {
  import opened Basics
  import opened Bytes
  import opened Headers

  const ERROR_CAPACITY: nat := 2

  /** Where a responder goroutine stands. */
  datatype Phase =
    | Responding    // in the handler
    | Writing       // the response is complete; the write is next
    | Reporting     // the write failed; its error is about to go to the error channel
    | Finishing     // about to tell the wait group
    | Done

  datatype Request = Request(message: Message, phase: Phase, response: Option<Message>)

  /** Where `Run` stands. */
  datatype RunPhase = Reading | ReportingRead | Collecting | Returned

  /** What a message on the way to the client is. */
  datatype Origin = Event | Response(j: nat)

  /**
   `outstanding` is the wait group and `errors` the fill of the error channel. `attempts` and `origins` are
   histories: the requests in the order their responses were offered to the connection, and what each message
   the connection accepted was. `failed` and `reported` count failed writes and those already in the error channel.
   */
  datatype Server = Server(
    run: RunPhase, requests: seq<Request>, outstanding: int, errors: nat,
    attempts: seq<nat>, origins: seq<Origin>, failed: nat, reported: nat)

  const INIT: Server := Server(Reading, [], 0, 0, [], [], 0, 0)

  /** The deferred function: whatever the handler built, exactly one ID header, and the panic if there was one. */
  function Finish(request: Message, built: Message, panic: Option<bytes>): Message {
    var stamped := Set(built.headers, ID_NAME, IdOf(request));
    Message(if panic.None? then stamped else Add(stamped, ERROR_NAME, "panic: " + panic.value), built.body)
  }

  datatype Step =
    | Read(m: Message) | ReadFails | SendReadError | Collect
    | Respond(j: nat, built: Message, panic: Option<bytes>)
    | WriteOk(j: nat) | WriteFails(j: nat) | Report(j: nat) | Finished(j: nat)
    | SendEvent(m: Message)

  predicate InPhase(s: Server, j: nat, p: Phase) {
    j < |s.requests| && s.requests[j].phase == p
  }

  predicate Enabled(s: Server, step: Step) {
    match step
    case Read(_) => s.run.Reading?
    case ReadFails => s.run.Reading?
    case SendReadError => s.run.ReportingRead? && s.errors < ERROR_CAPACITY
    case Collect => s.run.Collecting? && s.errors > 0
    case Respond(j, _, _) => InPhase(s, j, Responding)
    case WriteOk(j) => InPhase(s, j, Writing)
    case WriteFails(j) => InPhase(s, j, Writing)
    case Report(j) => InPhase(s, j, Reporting) && s.errors < ERROR_CAPACITY
    case Finished(j) => InPhase(s, j, Finishing)
    case SendEvent(m) => IdOf(m) == ""
  }

  function SetPhase(s: Server, j: nat, p: Phase): Server
    requires j < |s.requests|
  {
    s.(requests := s.requests[j := s.requests[j].(phase := p)])
  }

  function Apply(s: Server, step: Step): Server
    requires Enabled(s, step)
  {
    match step
    case Read(m) => s.(requests := s.requests + [Request(m, Responding, None)], outstanding := s.outstanding + 1)
    case ReadFails => s.(run := ReportingRead)
    case SendReadError => s.(run := Collecting, errors := s.errors + 1)
    case Collect => s.(run := Returned, errors := s.errors - 1)
    case Respond(j, built, panic) =>
      s.(requests := s.requests[j := s.requests[j].(phase := Writing,
                                                    response := Some(Finish(s.requests[j].message, built, panic)))])
    case WriteOk(j) => SetPhase(s, j, Finishing).(attempts := s.attempts + [j], origins := s.origins + [Response(j)])
    case WriteFails(j) => SetPhase(s, j, Reporting).(attempts := s.attempts + [j], failed := s.failed + 1)
    case Report(j) => SetPhase(s, j, Finishing).(errors := s.errors + 1, reported := s.reported + 1)
    case Finished(j) => SetPhase(s, j, Done).(outstanding := s.outstanding - 1)
    case SendEvent(m) => s.(origins := s.origins + [Event])
  }

  // ---------------------------------------------------------------- counting responders

  function Weight(r: Request, p: Phase): nat {
    if r.phase == p then 1 else 0
  }

  /** How many responders are in a phase. */
  function CountIn(rs: seq<Request>, p: Phase): nat {
    if rs == [] then 0 else CountIn(rs[..|rs| - 1], p) + Weight(rs[|rs| - 1], p)
  }

  lemma {:induction false} CountAppend(rs: seq<Request>, r: Request, p: Phase)
    ensures CountIn(rs + [r], p) == CountIn(rs, p) + Weight(r, p)
  {
    assert (rs + [r])[..|rs|] == rs;
  }

  lemma {:induction false} CountUpdate(rs: seq<Request>, j: nat, r: Request, p: Phase)
    requires j < |rs|
    ensures CountIn(rs[j := r], p) + Weight(rs[j], p) == CountIn(rs, p) + Weight(r, p)
  {
    var front := rs[..|rs| - 1];
    if j < |rs| - 1 {
      assert rs[j := r][..|rs| - 1] == front[j := r];
      CountUpdate(front, j, r, p);
    } else {
      assert rs[j := r][..|rs| - 1] == front;
    }
  }

  lemma {:induction false} CountBounds(rs: seq<Request>, p: Phase)
    ensures CountIn(rs, p) <= |rs|
    ensures CountIn(rs, p) == 0 <==> forall j | 0 <= j < |rs| :: rs[j].phase != p
    ensures CountIn(rs, p) == |rs| <==> forall j | 0 <= j < |rs| :: rs[j].phase == p
  {
    if rs != [] {
      var front := rs[..|rs| - 1];
      CountBounds(front, p);
      assert forall j | 0 <= j < |front| :: rs[j] == front[j];
    }
  }

  // ---------------------------------------------------------------- what every step keeps

  predicate HasAttempted(p: Phase) {
    p.Reporting? || p.Finishing? || p.Done?
  }

  /** The response is the request's own: exactly one ID header, with the request's ID. */
  predicate RequestOk(r: Request) {
    && (r.response.Some? <==> !r.phase.Responding?)
    && (r.response.Some? ==> IdsOf(r.response.value) == [IdOf(r.message)])
  }

  /** The error channel holds the reported write errors, plus the read error until `Run` takes one out. */
  predicate ErrorsOk(s: Server) {
    && s.errors <= ERROR_CAPACITY
    && s.errors == s.reported + (if s.run.Collecting? then 1 else 0)
    && s.failed == s.reported + CountIn(s.requests, Reporting)
  }

  /** Each request is offered at most once, and exactly once when its responder is past the write. */
  predicate AttemptsOk(s: Server) {
    && (forall a | 0 <= a < |s.attempts| ::
          s.attempts[a] < |s.requests| && HasAttempted(s.requests[s.attempts[a]].phase))
    && (forall a, b | 0 <= a < b < |s.attempts| :: s.attempts[a] != s.attempts[b])
    && (forall j | 0 <= j < |s.requests| && HasAttempted(s.requests[j].phase) :: j in s.attempts)
  }

  /** No two messages the connection accepted answer the same request. */
  predicate OriginsOk(s: Server) {
    && (forall i | 0 <= i < |s.origins| && s.origins[i].Response? ::
          s.origins[i].j < |s.requests| && HasAttempted(s.requests[s.origins[i].j].phase))
    && (forall i, j | 0 <= i < j < |s.origins| && s.origins[i].Response? :: s.origins[i] != s.origins[j])
  }

  ghost predicate Inv(s: Server) {
    && (forall j | 0 <= j < |s.requests| :: RequestOk(s.requests[j]))
    && s.outstanding == |s.requests| - CountIn(s.requests, Done)
    && ErrorsOk(s) && AttemptsOk(s) && OriginsOk(s)
  }

  /** Whether the handler returns, sets ID headers of its own or panics. */
  lemma FinishHasOneId(request: Message, built: Message, panic: Option<bytes>)
    ensures IdsOf(Finish(request, built, panic)) == [IdOf(request)]
  {
    var stamped := Set(built.headers, ID_NAME, IdOf(request));
    SetId(built.headers, IdOf(request), built.body);
    if panic.Some? {
      ErrorIsNoId(stamped, "panic: " + panic.value, built.body);
    }
  }

  lemma ErrorIsNoId(hs: seq<Header>, text: bytes, body: bytes)
    ensures IdsOf(Message(Add(hs, ERROR_NAME, text), body)) == IdsOf(Message(hs, body))
  {
    ProtocolNamesCanonical();
    IdOfIsGet(Message(Add(hs, ERROR_NAME, text), body));
    IdOfIsGet(Message(hs, body));
    GetAllAppend(hs, NewHeader(ERROR_NAME, text), ID_NAME);
  }

  /** The headers that are neither the ID nor an error. */
  function Content(hs: seq<Header>): seq<Header> {
    OthersOf(OthersOf(hs, ID_NAME), ERROR_NAME)
  }

  lemma ErrorAppended(hs: seq<Header>, text: bytes, name: bytes)
    ensures GetAll(Add(hs, ERROR_NAME, text), name) == GetAll(hs, name) + if Canonical(name) == ERROR_NAME then [text] else []
    ensures OthersOf(Add(hs, ERROR_NAME, text), ID_NAME) == OthersOf(hs, ID_NAME) + [Header(ERROR_NAME, text)]
  {
    ProtocolNamesCanonical();
    GetAllAppend(hs, NewHeader(ERROR_NAME, text), name);
    GetAllAppend(hs, NewHeader(ERROR_NAME, text), ID_NAME);
  }

  /** The errors a handler reported, and the panic if there was one. */
  function ErrorsAfter(errors: seq<bytes>, panic: Option<bytes>): seq<bytes> {
    if panic.None? then errors else errors + ["panic: " + panic.value]
  }

  /** What the handler built is what goes out: its body, its headers in order, its errors; a panic adds one error. */
  ghost predicate KeepsContent(built: Message, response: Message, panic: Option<bytes>) {
    && response.body == built.body && Content(response.headers) == Content(built.headers)
    && (forall name | Canonical(name) != ID_NAME && Canonical(name) != ERROR_NAME ::
          GetAll(response.headers, name) == GetAll(built.headers, name))
    && GetAll(response.headers, ERROR_NAME) == ErrorsAfter(GetAll(built.headers, ERROR_NAME), panic)
  }

  lemma ContentAppended(hs: seq<Header>, text: bytes)
    ensures Content(Add(hs, ERROR_NAME, text)) == Content(hs)
  {
    ErrorAppended(hs, text, ERROR_NAME);
    ErrorNameCanonical();
    var others, h := OthersOf(hs, ID_NAME), Header(ERROR_NAME, text);
    GetAllAppend(others, h, ERROR_NAME);
    assert OthersOf(others, ERROR_NAME) + [] == OthersOf(others, ERROR_NAME);
  }

  lemma FinishKeepsContent(request: Message, built: Message, panic: Option<bytes>)
    ensures KeepsContent(built, Finish(request, built, panic), panic)
  {
    var stamped, response := Set(built.headers, ID_NAME, IdOf(request)), Finish(request, built, panic);
    ProtocolNamesCanonical();
    SetOnlyDiffers(built.headers, ID_NAME, IdOf(request));
    if panic.Some? {
      ContentAppended(stamped, "panic: " + panic.value);
    }
    forall name | Canonical(name) != ID_NAME
      ensures GetAll(response.headers, name)
           == GetAll(built.headers, name) + if panic.Some? && Canonical(name) == ERROR_NAME then ["panic: " + panic.value] else []
    {
      assert GetAll(built.headers, name) + [] == GetAll(built.headers, name);
      if panic.Some? {
        ErrorAppended(stamped, "panic: " + panic.value, name);
      }
    }
  }

  predicate IsResponderStep(step: Step) {
    step.Respond? || step.WriteOk? || step.WriteFails? || step.Report? || step.Finished?
  }

  /** The request a responder step leaves behind. */
  function Updated(s: Server, step: Step): Request
    requires Enabled(s, step) && IsResponderStep(step)
  {
    Apply(s, step).requests[step.j]
  }

  lemma ResponderStepCounts(s: Server, step: Step, p: Phase)
    requires Enabled(s, step) && IsResponderStep(step)
    ensures Apply(s, step).requests == s.requests[step.j := Updated(s, step)]
    ensures CountIn(Apply(s, step).requests, p) + Weight(s.requests[step.j], p)
         == CountIn(s.requests, p) + Weight(Updated(s, step), p)
  {
    assert Apply(s, step).requests == s.requests[step.j := Updated(s, step)];
    CountUpdate(s.requests, step.j, Updated(s, step), p);
  }

  lemma ResponderStepKeepsRequests(s: Server, step: Step, j: nat)
    requires Inv(s) && Enabled(s, step) && IsResponderStep(step) && j < |s.requests|
    ensures RequestOk(Apply(s, step).requests[j])
  {
    assert RequestOk(s.requests[j]);
    if step.Respond? {
      FinishHasOneId(s.requests[step.j].message, step.built, step.panic);
    }
  }

  /** What a responder's step does to the phases and to the histories. */
  lemma ResponderStepEffect(s: Server, step: Step)
    requires Enabled(s, step) && IsResponderStep(step)
    ensures var s', wrote := Apply(s, step), step.WriteOk? || step.WriteFails?;
            && |s'.requests| == |s.requests|
            && (forall j | 0 <= j < |s.requests| && j != step.j :: s'.requests[j] == s.requests[j])
            && (HasAttempted(s'.requests[step.j].phase) <==> wrote || HasAttempted(s.requests[step.j].phase))
            && (wrote ==> !HasAttempted(s.requests[step.j].phase))
            && s'.attempts == s.attempts + (if wrote then [step.j] else [])
            && s'.origins == s.origins + if step.WriteOk? then [Response(step.j)] else []
  {
  }

  lemma ResponderStepKeepsAttempts(s: Server, step: Step)
    requires AttemptsOk(s) && Enabled(s, step) && IsResponderStep(step)
    ensures AttemptsOk(Apply(s, step))
  {
    var s' := Apply(s, step);
    ResponderStepEffect(s, step);
    forall j | 0 <= j < |s'.requests| && HasAttempted(s'.requests[j].phase) ensures j in s'.attempts {
      if j == step.j && (step.WriteOk? || step.WriteFails?) {
        assert s'.attempts[|s.attempts|] == j;
      } else {
        assert j in s.attempts;
      }
    }
  }

  lemma ResponderStepKeepsOrigins(s: Server, step: Step)
    requires OriginsOk(s) && Enabled(s, step) && IsResponderStep(step)
    ensures OriginsOk(Apply(s, step))
  {
    ResponderStepEffect(s, step);
  }

  lemma ResponderStepKeepsInv(s: Server, step: Step)
    requires Inv(s) && Enabled(s, step) && IsResponderStep(step)
    ensures Inv(Apply(s, step))
  {
    ResponderStepCounts(s, step, Done);
    ResponderStepCounts(s, step, Reporting);
    ResponderStepKeepsAttempts(s, step);
    ResponderStepKeepsOrigins(s, step);
    forall j | 0 <= j < |s.requests| ensures RequestOk(Apply(s, step).requests[j]) {
      ResponderStepKeepsRequests(s, step, j);
    }
  }

  lemma ReadKeepsInv(s: Server, m: Message)
    requires Inv(s) && Enabled(s, Read(m))
    ensures Inv(Apply(s, Read(m)))
  {
    CountAppend(s.requests, Request(m, Responding, None), Done);
    CountAppend(s.requests, Request(m, Responding, None), Reporting);
    ReadKeepsHistories(s, m);
    forall j | 0 <= j < |s.requests| + 1 ensures RequestOk(Apply(s, Read(m)).requests[j]) {
      assert j < |s.requests| ==> RequestOk(s.requests[j]);
    }
  }

  lemma ReadKeepsHistories(s: Server, m: Message)
    requires AttemptsOk(s) && OriginsOk(s) && Enabled(s, Read(m))
    ensures AttemptsOk(Apply(s, Read(m))) && OriginsOk(Apply(s, Read(m)))
  {
    var s' := Apply(s, Read(m));
    assert s'.requests == s.requests + [Request(m, Responding, None)] && s'.attempts == s.attempts;
    forall j | 0 <= j < |s'.requests| && HasAttempted(s'.requests[j].phase) ensures j in s'.attempts {
      assert j < |s.requests| && s'.requests[j] == s.requests[j];
    }
  }

  lemma LoopStepKeepsInv(s: Server, step: Step)
    requires Inv(s) && Enabled(s, step) && !IsResponderStep(step) && !step.Read?
    ensures Inv(Apply(s, step))
  {
    var s' := Apply(s, step);
    assert s'.requests == s.requests && s'.attempts == s.attempts;
    forall j | 0 <= j < |s'.requests| && HasAttempted(s'.requests[j].phase) ensures j in s'.attempts {
      assert j in s.attempts;
    }
  }

  lemma StepKeepsInv(s: Server, step: Step)
    requires Inv(s) && Enabled(s, step)
    ensures Inv(Apply(s, step))
  {
    if IsResponderStep(step) {
      ResponderStepKeepsInv(s, step);
    } else if step.Read? {
      ReadKeepsInv(s, step.m);
    } else {
      LoopStepKeepsInv(s, step);
    }
  }

  // ---------------------------------------------------------------- whole runs

  /** The state after the steps, each of which must be enabled when its turn comes. */
  ghost predicate Runs(s: Server, steps: seq<Step>, s': Server)
    decreases |steps|
  {
    if steps == [] then s' == s
    else Enabled(s, steps[0]) && Runs(Apply(s, steps[0]), steps[1..], s')
  }

  ghost predicate Reachable(s: Server) {
    exists steps :: Runs(INIT, steps, s)
  }

  lemma {:induction false} RunsKeepInv(s: Server, steps: seq<Step>, s': Server)
    requires Inv(s) && Runs(s, steps, s')
    ensures Inv(s')
    decreases |steps|
  {
    if steps != [] {
      StepKeepsInv(s, steps[0]);
      RunsKeepInv(Apply(s, steps[0]), steps[1..], s');
    }
  }

  lemma InitInv()
    ensures Inv(INIT)
  {
  }

  lemma ReachableInv(s: Server)
    requires Reachable(s)
    ensures Inv(s)
  {
    var steps :| Runs(INIT, steps, s);
    RunsKeepInv(INIT, steps, s);
  }

  /** One write attempt per request, carrying one ID header, the request's; and `WaitClean` passes when all are done. */
  lemma OneAttemptEach(s: Server)
    requires Reachable(s)
    ensures forall j | 0 <= j < |s.requests| ::
              multiset(s.attempts)[j] == if HasAttempted(s.requests[j].phase) then 1 else 0
    ensures forall j | 0 <= j < |s.requests| && HasAttempted(s.requests[j].phase) ::
              && s.requests[j].response.Some?
              && IdsOf(s.requests[j].response.value) == [IdOf(s.requests[j].message)]
    ensures s.outstanding == 0 <==> forall j | 0 <= j < |s.requests| :: s.requests[j].phase.Done?
  {
    ReachableInv(s);
    CountBounds(s.requests, Done);
    forall j | 0 <= j < |s.requests|
      ensures multiset(s.attempts)[j] == if HasAttempted(s.requests[j].phase) then 1 else 0
    {
      DistinctCount(s.attempts, j);
    }
    forall j | 0 <= j < |s.requests| ensures RequestOk(s.requests[j]) {}
  }

  function MessagesRead(steps: seq<Step>): seq<Message> {
    if steps == [] then [] else (if steps[0].Read? then [steps[0].m] else []) + MessagesRead(steps[1..])
  }

  function MessagesOf(rs: seq<Request>): (ms: seq<Message>)
    ensures |ms| == |rs| && forall j | 0 <= j < |rs| :: ms[j] == rs[j].message
  {
    seq(|rs|, j requires 0 <= j < |rs| => rs[j].message)
  }

  /** A response, once there, stays as it is. */
  lemma StepKeepsResponse(s: Server, step: Step, j: nat)
    requires Inv(s) && Enabled(s, step) && j < |s.requests|
    ensures j < |Apply(s, step).requests|
    ensures s.requests[j].response.Some? ==> Apply(s, step).requests[j].response == s.requests[j].response
    ensures s.requests[j].response.None? && Apply(s, step).requests[j].response.Some? ==>
              Answers(step, j, Apply(s, step).requests[j].response.value)
  {
    assert RequestOk(s.requests[j]);
    if step.Respond? {
      FinishKeepsContent(s.requests[step.j].message, step.built, step.panic);
    }
  }

  lemma StepReads(s: Server, step: Step)
    requires Enabled(s, step)
    ensures MessagesOf(Apply(s, step).requests) == MessagesOf(s.requests) + if step.Read? then [step.m] else []
  {
  }

  /** The step with which the handler of request `j` was done, for this response. */
  ghost predicate Answers(step: Step, j: nat, response: Message) {
    step.Respond? && step.j == j && KeepsContent(step.built, response, step.panic)
  }

  ghost predicate AnyAnswers(steps: seq<Step>, j: nat, response: Message) {
    exists i :: 0 <= i < |steps| && Answers(steps[i], j, response)
  }

  lemma {:induction false} ReadFrom(s: Server, steps: seq<Step>, s': Server)
    requires Runs(s, steps, s')
    ensures MessagesOf(s'.requests) == MessagesOf(s.requests) + MessagesRead(steps)
    decreases |steps|
  {
    if steps != [] {
      StepReads(s, steps[0]);
      ReadFrom(Apply(s, steps[0]), steps[1..], s');
    }
  }

  lemma {:induction false} AnsweredFrom(s: Server, steps: seq<Step>, s': Server, j: nat)
    requires Inv(s) && Runs(s, steps, s') && j < |s'.requests| && s'.requests[j].response.Some?
    ensures || (j < |s.requests| && s.requests[j].response == s'.requests[j].response)
            || AnyAnswers(steps, j, s'.requests[j].response.value)
    decreases |steps|
  {
    if steps != [] {
      var s1, more, response := Apply(s, steps[0]), steps[1..], s'.requests[j].response.value;
      StepKeepsInv(s, steps[0]);
      AnsweredFrom(s1, more, s', j);
      if AnyAnswers(more, j, response) {
        var i :| 0 <= i < |more| && Answers(more[i], j, response);
        assert Answers(steps[i + 1], j, response);
      } else if j < |s.requests| {
        StepKeepsResponse(s, steps[0], j);
        assert s.requests[j].response.None? ==> Answers(steps[0], j, response);
      }
    }
  }

  /** In every run the requests are the messages read, in order ... */
  lemma RequestsAreRead(steps: seq<Step>, s: Server)
    requires Runs(INIT, steps, s)
    ensures MessagesOf(s.requests) == MessagesRead(steps)
  {
    ReadFrom(INIT, steps, s);
    assert INIT.requests == [] && MessagesOf([]) == [];
  }

  /** ... and each response is what its own handler built. */
  lemma ResponsesAreBuilt(steps: seq<Step>, s: Server, j: nat)
    requires Runs(INIT, steps, s) && j < |s.requests| && s.requests[j].response.Some?
    ensures AnyAnswers(steps, j, s.requests[j].response.value)
  {
    InitInv();
    AnsweredFrom(INIT, steps, s, j);
  }

  /** Somebody is about to send on the error channel and finds it full. */
  predicate SendBlocked(s: Server) {
    s.errors >= ERROR_CAPACITY && (s.run.ReportingRead? || exists j :: 0 <= j < |s.requests| && s.requests[j].phase.Reporting?)
  }

  lemma RoomForOne(s: Server, j: nat)
    requires Inv(s) && s.failed <= 1 && InPhase(s, j, Reporting)
    ensures s.errors < ERROR_CAPACITY
  {
    CountBounds(s.requests, Reporting);
  }

  lemma OneFailureNeverBlocks(s: Server)
    requires Reachable(s) && s.failed <= 1
    ensures !SendBlocked(s)
  {
    ReachableInv(s);
    CountBounds(s.requests, Reporting);
  }

  ghost predicate Hangs(s: Server) {
    s.run.ReportingRead? && forall steps, s' | Runs(s, steps, s') :: s'.run.ReportingRead?
  }

  lemma {:induction false} FullChannelStaysFull(s: Server, steps: seq<Step>, s': Server)
    requires s.run.ReportingRead? && s.errors >= ERROR_CAPACITY && Runs(s, steps, s')
    ensures s'.run.ReportingRead?
    decreases |steps|
  {
    if steps != [] {
      FullChannelStaysFull(Apply(s, steps[0]), steps[1..], s');
    }
  }

  /**
   A read error reaches the caller of `Run` unless two write errors were reported first: then `Run` waits for
   room in the channel that only it would empty.
   */
  lemma HangsExactly(s: Server)
    requires Reachable(s) && s.run.ReportingRead?
    ensures Hangs(s) <==> s.reported >= 2
  {
    ReachableInv(s);
    HangsExactlyFrom(s);
  }

  lemma HangsExactlyFrom(s: Server)
    requires Inv(s) && s.run.ReportingRead?
    ensures Hangs(s) <==> s.reported >= 2
  {
    if s.reported >= 2 {
      forall steps, s' | Runs(s, steps, s') ensures s'.run.ReportingRead? {
        FullChannelStaysFull(s, steps, s');
      }
    } else {
      var s' := Apply(s, SendReadError);
      assert Runs(s', [], s');
      assert [SendReadError][1..] == [];
      assert Runs(s, [SendReadError], s');
    }
  }

  lemma {:induction false} RunsOneMore(s: Server, steps: seq<Step>, s': Server, step: Step)
    requires Runs(s, steps, s') && Enabled(s', step)
    ensures Runs(s, steps + [step], Apply(s', step))
    decreases |steps|
  {
    if steps == [] {
      assert Runs(Apply(s, step), [step][1..], Apply(s', step));
    } else {
      assert (steps + [step])[1..] == steps[1..] + [step];
      RunsOneMore(Apply(s, steps[0]), steps[1..], s', step);
    }
  }

  lemma ReachableStep(s: Server, step: Step)
    requires Reachable(s) && Enabled(s, step)
    ensures Reachable(Apply(s, step))
  {
    var steps :| Runs(INIT, steps, s);
    RunsOneMore(INIT, steps, s, step);
  }

  // ---------------------------------------------------------------- when WaitClean can pass

  /** How many steps a responder in the phase still has to take, failures of its write aside. */
  function Rank(p: Phase): nat {
    match p
    case Responding => 4
    case Writing => 3
    case Reporting => 2
    case Finishing => 1
    case Done => 0
  }

  function Work(rs: seq<Request>): nat {
    if rs == [] then 0 else Work(rs[..|rs| - 1]) + Rank(rs[|rs| - 1].phase)
  }

  lemma {:induction false} WorkUpdate(rs: seq<Request>, j: nat, r: Request)
    requires j < |rs|
    ensures Work(rs[j := r]) + Rank(rs[j].phase) == Work(rs) + Rank(r.phase)
  {
    var front := rs[..|rs| - 1];
    if j < |rs| - 1 {
      assert rs[j := r][..|rs| - 1] == front[j := r];
      WorkUpdate(front, j, r);
    } else {
      assert rs[j := r][..|rs| - 1] == front;
    }
  }

  /** What is left to do: the responders' work, and the receive that makes room in the error channel. */
  function Remaining(s: Server): nat {
    Work(s.requests) + if s.run.Collecting? then 1 else 0
  }

  /** A step that brings responder `j` closer to its end. */
  function Onward(s: Server, j: nat): Step
    requires j < |s.requests|
  {
    match s.requests[j].phase
    case Responding => Respond(j, Message([], []), None)
    case Writing => WriteOk(j)
    case Reporting => if s.errors < ERROR_CAPACITY then Report(j) else Collect
    case Finishing => Finished(j)
    case Done => ReadFails
  }

  /** With at most two failed writes there is room for every error, or `Run` is about to make some. */
  lemma OnwardEnabled(s: Server, j: nat)
    requires ErrorsOk(s) && s.failed <= 2 && j < |s.requests| && !s.requests[j].phase.Done?
    ensures Enabled(s, Onward(s, j))
  {
    CountBounds(s.requests, Reporting);
  }

  lemma OnwardHelps(s: Server, j: nat)
    requires j < |s.requests| && !s.requests[j].phase.Done? && Enabled(s, Onward(s, j))
    ensures Apply(s, Onward(s, j)).failed == s.failed && Remaining(Apply(s, Onward(s, j))) < Remaining(s)
  {
    var step := Onward(s, j);
    if IsResponderStep(step) {
      WorkUpdate(s.requests, j, Updated(s, step));
      ResponderStepCounts(s, step, Done);
    }
  }

  lemma {:induction false} FinishesFrom(s: Server) returns (steps: seq<Step>, s': Server)
    requires Inv(s) && s.failed <= 2
    ensures Runs(s, steps, s') && s'.outstanding == 0
    decreases Remaining(s)
  {
    CountBounds(s.requests, Done);
    if j :| 0 <= j < |s.requests| && !s.requests[j].phase.Done? {
      OnwardEnabled(s, j);
      OnwardHelps(s, j);
      var step := Onward(s, j);
      StepKeepsInv(s, step);
      var more;
      more, s' := FinishesFrom(Apply(s, step));
      steps := [step] + more;
      assert steps[1..] == more;
    } else {
      steps, s' := [], s;
    }
  }

  lemma {:induction false} ThreeFailuresStay(s: Server, steps: seq<Step>, s': Server)
    requires Inv(s) && s.failed >= 3 && Runs(s, steps, s')
    ensures s'.outstanding > 0
    decreases |steps|
  {
    if steps == [] {
      ReporterStuck(s);
    } else {
      StepKeepsInv(s, steps[0]);
      ThreeFailuresStay(Apply(s, steps[0]), steps[1..], s');
    }
  }

  /** The channel takes two errors, so a third failed responder is still waiting to report. */
  lemma ReporterStuck(s: Server)
    requires Inv(s) && s.failed >= 3
    ensures s.outstanding > 0
  {
    CountBounds(s.requests, Reporting);
    CountBounds(s.requests, Done);
  }

  ghost predicate CanBeClean(s: Server) {
    exists steps, s' :: Runs(s, steps, s') && s'.outstanding == 0
  }

  /** `WaitClean` can still pass exactly as long as no more than two writes have failed. */
  lemma CleanExactly(s: Server)
    requires Reachable(s)
    ensures CanBeClean(s) <==> s.failed <= 2
  {
    ReachableInv(s);
    if s.failed <= 2 {
      var steps, s' := FinishesFrom(s);
    } else if CanBeClean(s) {
      var steps, s' :| Runs(s, steps, s') && s'.outstanding == 0;
      ThreeFailuresStay(s, steps, s');
    }
  }

  /** Two requests whose responses cannot be written are enough. */
  lemma TwoFailedWritesHang(m: Message) returns (s: Server)
    ensures Reachable(s) && Hangs(s) && s.failed == 2
  {
    assert Runs(INIT, [], INIT);
    s := OneMoreFailure(INIT, m);
    s := OneMoreFailure(s, m);
    ReachableStep(s, ReadFails);
    s := Apply(s, ReadFails);
    HangsExactly(s);
  }

  /** One more request is read, and its response cannot be written. */
  lemma OneMoreFailure(s: Server, m: Message) returns (s': Server)
    requires Reachable(s) && s.run.Reading? && s.errors < ERROR_CAPACITY
    ensures Reachable(s') && s'.run.Reading? && s'.errors == s.errors + 1
    ensures s'.failed == s.failed + 1 && s'.reported == s.reported + 1
  {
    var j := |s.requests|;
    ReachableStep(s, Read(m));                s' := Apply(s, Read(m));
    ReachableStep(s', Respond(j, m, None));   s' := Apply(s', Respond(j, m, None));
    ReachableStep(s', WriteFails(j));         s' := Apply(s', WriteFails(j));
    ReachableStep(s', Report(j));             s' := Apply(s', Report(j));
  }
}
