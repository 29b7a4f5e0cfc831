/**
 interop/rpc_server.go as code on the heap: `Run` and its responders, cut where another goroutine may come in between.
 Each piece is proved to be a step of RpcServer, so that what holds of every run there holds of the code.
 */
module RpcServerCode {
  import opened Basics
  import opened Bytes
  import opened Headers
  import opened GoSlices
  import S = RpcServer

  /** The deferred function up to the write: it runs on whatever the handler left in the builder. */
  method Complete(req: Message, res: MessageBuilder, panic: Option<bytes>)
    requires res.Valid()
    modifies res, res.headers
    ensures res.Valid() && res.View() == S.Finish(req, old(res.View()), panic)
    ensures IdsOf(res.View()) == [IdOf(req)] && S.KeepsContent(old(res.View()), res.View(), panic)
  {
    S.FinishHasOneId(req, res.View(), panic);
    S.FinishKeepsContent(req, res.View(), panic);
    res.SetValue(ID_NAME, IdOf(req));
    if panic.Some? {
      res.AddValue(ERROR_NAME, "panic: " + panic.value);
    }
  }

  class RpcServer {
    var run: S.RunPhase
    var requests: seq<S.Request>
    var wait: int
    var err: nat
    ghost var attempts: seq<nat>
    ghost var origins: seq<S.Origin>
    ghost var failed: nat
    ghost var reported: nat

    ghost function View(): S.Server reads this {
      S.Server(run, requests, wait, err, attempts, origins, failed, reported)
    }

    ghost predicate Valid() reads this {
      S.Inv(View())
    }

    constructor ()
      ensures View() == S.INIT
    {
      run, requests, wait, err := S.Reading, [], 0, 0;
      attempts, origins, failed, reported := [], [], 0, 0;
    }

    /** A request was read: the wait group counts it, and its responder starts with an empty builder. */
    method Accept(req: Message) returns (j: nat, res: MessageBuilder)
      requires Valid() && run.Reading?
      modifies this
      ensures View() == S.Apply(old(View()), S.Read(req)) && Valid()
      ensures j == old(|requests|) && requests == old(requests) + [S.Request(req, S.Responding, None)]
      ensures fresh(res) && res.Valid() && fresh(res.headers) && res.View() == Message([], [])
    {
      S.StepKeepsInv(View(), S.Read(req));
      j := |requests|;
      res := new MessageBuilder();
      wait := wait + 1;
      requests := requests + [S.Request(req, S.Responding, None)];
    }

    /** The handler has returned or panicked, and the deferred function completes the response. */
    method Defer(j: nat, res: MessageBuilder, panic: Option<bytes>)
      requires Valid() && S.InPhase(View(), j, S.Responding) && res.Valid()
      modifies this, res, res.headers
      ensures View() == S.Apply(old(View()), S.Respond(j, old(res.View()), panic)) && Valid()
      ensures res.Valid() && j < |requests| && requests[j].response == Some(res.View())
      ensures IdsOf(res.View()) == [IdOf(old(requests)[j].message)] && S.KeepsContent(old(res.View()), res.View(), panic)
    {
      S.StepKeepsInv(View(), S.Respond(j, res.View(), panic));
      Complete(requests[j].message, res, panic);
      var response := Message(res.headers[..res.len], res.body);
      requests := requests[j := requests[j].(phase := S.Writing, response := Some(response))];
    }

    method Write(j: nat, accepted: bool)
      requires Valid() && S.InPhase(View(), j, S.Writing)
      modifies this
      ensures View() == S.Apply(old(View()), if accepted then S.WriteOk(j) else S.WriteFails(j)) && Valid()
      ensures attempts == old(attempts) + [j] && origins == old(origins) + (if accepted then [S.Response(j)] else [])
      ensures failed == old(failed) + (if accepted then 0 else 1) && err == old(err) && wait == old(wait)
    {
      S.StepKeepsInv(View(), if accepted then S.WriteOk(j) else S.WriteFails(j));
      attempts := attempts + [j];
      if accepted {
        origins := origins + [S.Response(j)];
        requests := requests[j := requests[j].(phase := S.Finishing)];
      } else {
        failed := failed + 1;
        requests := requests[j := requests[j].(phase := S.Reporting)];
      }
    }

    /** A send on the error channel goes through at once exactly if there is room. */
    method ReportError(j: nat) returns (through: bool)
      requires Valid() && S.InPhase(View(), j, S.Reporting)
      modifies this
      ensures through <==> old(err) < S.ERROR_CAPACITY
      ensures View() == (if through then S.Apply(old(View()), S.Report(j)) else old(View())) && Valid()
      ensures old(failed) <= 1 ==> through
    {
      ghost var s := View();
      if s.failed <= 1 {
        S.RoomForOne(s, j);
      }
      if err >= S.ERROR_CAPACITY {
        return false;
      }
      S.StepKeepsInv(s, S.Report(j));
      err, reported := err + 1, reported + 1;
      requests := requests[j := requests[j].(phase := S.Finishing)];
      assert View() == S.Apply(s, S.Report(j));
      return true;
    }

    method Done(j: nat)
      requires Valid() && S.InPhase(View(), j, S.Finishing)
      modifies this
      ensures View() == S.Apply(old(View()), S.Finished(j)) && Valid()
    {
      S.StepKeepsInv(View(), S.Finished(j));
      wait := wait - 1;
      requests := requests[j := requests[j].(phase := S.Done)];
    }

    /** The read failed; responders may still report before `Run` gets to send. */
    method StopReading()
      requires Valid() && run.Reading?
      modifies this
      ensures View() == S.Apply(old(View()), S.ReadFails) && Valid()
    {
      S.StepKeepsInv(View(), S.ReadFails);
      run := S.ReportingRead;
    }

    /** The send of the read error goes through exactly if there is room; if there is none there never will be. */
    method SendReadError() returns (through: bool)
      requires Valid() && run.ReportingRead?
      modifies this
      ensures through <==> old(reported) < 2
      ensures through ==> View() == S.Apply(old(View()), S.SendReadError)
      ensures !through ==> View() == old(View()) && S.Hangs(View())
      ensures Valid()
    {
      S.HangsExactlyFrom(View());
      if err >= S.ERROR_CAPACITY {
        return false;
      }
      S.StepKeepsInv(View(), S.SendReadError);
      run, err := S.Collecting, err + 1;
      return true;
    }

    /** The receive that ends `Run` never waits. */
    method CollectError()
      requires Valid() && run.Collecting?
      modifies this
      ensures View() == S.Apply(old(View()), S.Collect) && Valid()
    {
      S.StepKeepsInv(View(), S.Collect);
      run, err := S.Returned, err - 1;
    }

    /** `WaitClean` passes exactly when every request read so far is done with. */
    method WaitClean() returns (passes: bool)
      requires Valid()
      ensures passes <==> forall j | 0 <= j < |requests| :: requests[j].phase.Done?
      ensures passes ==> forall j | 0 <= j < |requests| :: multiset(attempts)[j] == 1
    {
      S.CountBounds(requests, S.Done);
      forall j | 0 <= j < |requests| && requests[j].phase.Done? ensures multiset(attempts)[j] == 1 {
        DistinctCount(attempts, j);
      }
      passes := wait == 0;
    }
  }
}
