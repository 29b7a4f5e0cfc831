/**
 From the caller to the handler and back: what a call asks is what the handler is given, and what the handler builds is
 what the call returns, in every run over queues and in every unmixed run over byte streams.
 */
module RpcEndToEnd {
  import opened Basics
  import opened Bytes
  import opened Headers
  import opened RpcSystem
  import opened RpcOverBytes
  import C = RpcClient
  import S = RpcServer

  // ---------------------------------------------------------------- the requests of the callers

  /** What was asked by the calls of a run, in the order they registered. */
  function Requested(steps: seq<Step>): seq<Message> {
    if steps == [] then []
    else (if steps[0].OfClient? && steps[0].c.Register? then [steps[0].c.request] else []) + Requested(steps[1..])
  }

  function RequestsOf(calls: seq<C.Call>): (ms: seq<Message>)
    ensures |ms| == |calls| && forall k | 0 <= k < |calls| :: ms[k] == calls[k].request
  {
    seq(|calls|, k requires 0 <= k < |calls| => calls[k].request)
  }

  lemma ClientStepRegisters(c: C.Client, step: C.Step)
    requires C.Enabled(c, step)
    ensures RequestsOf(C.Apply(c, step).calls) == RequestsOf(c.calls) + if step.Register? then [step.request] else []
  {
    var calls, calls' := c.calls, C.Apply(c, step).calls;
    assert |calls'| == |calls| + if step.Register? then 1 else 0;
    forall k | 0 <= k < |calls| ensures calls'[k].request == calls[k].request {
    }
  }

  lemma {:induction false} RegisteredFrom(sys: System, steps: seq<Step>, sys': System)
    requires Runs(sys, steps, sys')
    ensures RequestsOf(sys'.core.client.calls) == RequestsOf(sys.core.client.calls) + Requested(steps)
    decreases |steps|
  {
    if steps != [] {
      if steps[0].OfClient? {
        ClientStepRegisters(sys.core.client, steps[0].c);
      }
      RegisteredFrom(Next(sys, steps[0]), steps[1..], sys');
    }
  }

  lemma CallsAreRequested(prefix: bytes, steps: seq<Step>, sys: System)
    requires Runs(Init(prefix), steps, sys)
    ensures RequestsOf(sys.core.client.calls) == Requested(steps)
  {
    RegisteredFrom(Init(prefix), steps, sys);
    assert RequestsOf([]) == [];
  }

  // ---------------------------------------------------------------- the server's part of a run

  function ServerSteps(steps: seq<Step>): seq<S.Step> {
    if steps == [] then [] else (if steps[0].OfServer? then [steps[0].s] else []) + ServerSteps(steps[1..])
  }

  lemma {:induction false} ServerRuns(sys: System, steps: seq<Step>, sys': System)
    requires Runs(sys, steps, sys')
    ensures S.Runs(sys.core.server, ServerSteps(steps), sys'.core.server)
    decreases |steps|
  {
    if steps != [] {
      var more := ServerSteps(steps[1..]);
      ServerRuns(Next(sys, steps[0]), steps[1..], sys');
      if steps[0].OfServer? {
        assert ([steps[0].s] + more)[1..] == more;
      } else {
        assert [] + more == more;
      }
    }
  }

  // ---------------------------------------------------------------- there and back

  /** The request as its handler is given it: nothing but the ID differs. */
  ghost predicate Carries(request: Message, received: Message) {
    received.body == request.body && OnlyDiffersIn(request.headers, received.headers, ID_NAME)
  }

  /**
   In every run, a call that returns a message returns what a handler built, body, headers and errors, for a request read by
   the server that is the caller's own but for its ID.
   */
  lemma AnswerIsForRequest(prefix: bytes, steps: seq<Step>, sys: System, k: nat, m: Message) returns (j: nat)
    requires Runs(Init(prefix), steps, sys)
    requires k < |sys.core.client.calls| && sys.core.client.calls[k].phase == C.Returned(C.Answered(m))
    ensures k < |Requested(steps)| && j < |S.MessagesRead(ServerSteps(steps))|
    ensures Carries(Requested(steps)[k], S.MessagesRead(ServerSteps(steps))[j])
    ensures S.AnyAnswers(ServerSteps(steps), j, m)
  {
    var c, s := sys.core.client, sys.core.server;
    j := AnswerIsOwn(prefix, steps, sys, k, m);
    CallsAreRequested(prefix, steps, sys);
    ServerRuns(Init(prefix), steps, sys);
    S.RequestsAreRead(ServerSteps(steps), s);
    S.ResponsesAreBuilt(ServerSteps(steps), s, j);
    assert RequestsOf(c.calls)[k] == c.calls[k].request;
    assert S.MessagesOf(s.requests)[j] == s.requests[j].message;
    C.StampKeepsRequest(c.calls[k].request, C.Id(c.prefix, k));
  }

  /** `strings.Join(errs, "; ")` */
  function Joined(errs: seq<bytes>): bytes {
    if errs == [] then [] else if |errs| == 1 then errs[0] else errs[0] + "; " + Joined(errs[1..])
  }

  /** The error `SendContext` returns beside a response. */
  function CallError(response: Message): Option<bytes> {
    var errs := GetAll(response.headers, ERROR_NAME);
    if errs == [] then None else Some(Joined(errs))
  }

  /**
   In every run, a call that returns a message returns an error with it exactly if the handler of its request reported one
   or panicked; and if it only panicked, the error is the panic.
   */
  lemma ErrorsReachCaller(prefix: bytes, steps: seq<Step>, sys: System, k: nat, m: Message) returns (step: S.Step)
    requires Runs(Init(prefix), steps, sys)
    requires k < |sys.core.client.calls| && sys.core.client.calls[k].phase == C.Returned(C.Answered(m))
    ensures step in ServerSteps(steps) && step.Respond? && step.j < |S.MessagesRead(ServerSteps(steps))|
    ensures k < |Requested(steps)| && Carries(Requested(steps)[k], S.MessagesRead(ServerSteps(steps))[step.j])
    ensures CallError(m).None? <==> GetAll(step.built.headers, ERROR_NAME) == [] && step.panic.None?
    ensures GetAll(step.built.headers, ERROR_NAME) == [] && step.panic.Some? ==> CallError(m) == Some("panic: " + step.panic.value)
  {
    var j := AnswerIsForRequest(prefix, steps, sys, k, m);
    var server := ServerSteps(steps);
    var i :| 0 <= i < |server| && S.Answers(server[i], j, m);
    step := server[i];
    ErrorExactly(step.built, m, step.panic);
  }

  lemma ErrorExactly(built: Message, response: Message, panic: Option<bytes>)
    requires S.KeepsContent(built, response, panic)
    ensures CallError(response).None? <==> GetAll(built.headers, ERROR_NAME) == [] && panic.None?
    ensures GetAll(built.headers, ERROR_NAME) == [] && panic.Some? ==> CallError(response) == Some("panic: " + panic.value)
  {
    var errs := GetAll(response.headers, ERROR_NAME);
    assert GetAll(built.headers, ERROR_NAME) == [] && panic.Some? ==> errs == ["panic: " + panic.value];
  }

  /** The same over byte streams, provided that nothing was written to a stream behind what a failed write left on it. */
  lemma AnswerIsForRequestOverBytes(prefix: bytes, steps: seq<ByteStep>, b: ByteSystem, k: nat, m: Message) returns (j: nat)
    requires ByteRuns(ByteInit(prefix), steps, b) && !Mixed(b)
    requires k < |b.core.client.calls| && b.core.client.calls[k].phase == C.Returned(C.Answered(m))
    ensures var plain := Plain(steps);
            && k < |Requested(plain)| && j < |S.MessagesRead(ServerSteps(plain))|
            && Carries(Requested(plain)[k], S.MessagesRead(ServerSteps(plain))[j])
            && S.AnyAnswers(ServerSteps(plain), j, m)
  {
    var plain, sys := RunRefines(ByteInit(prefix), Init(prefix), steps, b);
    j := AnswerIsForRequest(prefix, plain, sys, k, m);
  }
}
