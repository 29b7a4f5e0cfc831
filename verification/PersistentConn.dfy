/**
 js/src/createWebSocketConn.ts over js/src/PersistentWebSocket.ts: the connection learns of the end only through close
 events that find the persistent socket CLOSED, and the socket does not tell of every end.
 */
module PersistentConn {
  import P = PersistentWebSocket
  import W = WebSocketConn

  datatype Joint<M> = Joint(ws: P.State, conn: W.State<M>)

  datatype Step<M> = OnSocket(e: P.Event) | Read | Give(message: M)

  function Init<M>(maxRetries: int): Joint<M> {
    Joint(P.Init(maxRetries), W.Init())
  }

  predicate Enabled<M>(j: Joint<M>, step: Step<M>) {
    step.OnSocket? ==> P.Enabled(j.ws, step.e)
  }

  /** Whether the event tells the connection's listener of a close. */
  predicate Tells(ws: P.State, e: P.Event) {
    e.ListenerRuns? || (e.SocketCloses? && ws.readyState.CLOSED?)
  }

  /** What the connection makes of a step: nothing, or an event of its own. */
  function Effect<M>(j: Joint<M>, step: Step<M>): seq<W.Event<M>> {
    match step
    case OnSocket(e) => if Tells(j.ws, e) then [W.CloseEvent(j.ws.readyState.CLOSED?)] else []
    case Read => [W.Read]
    case Give(m) => [W.Give(m)]
  }

  function Apply<M>(j: Joint<M>, step: Step<M>): Joint<M>
    requires Enabled(j, step)
  {
    var effect := Effect(j, step);
    Joint(if step.OnSocket? then P.Apply(j.ws, step.e) else j.ws,
          if effect == [] then j.conn else W.Apply(j.conn, effect[0]))
  }

  ghost predicate Runs<M(!new)>(j: Joint<M>, steps: seq<Step<M>>, j': Joint<M>)
    decreases |steps|
  {
    if steps == [] then j' == j
    else Enabled(j, steps[0]) && Runs(Apply(j, steps[0]), steps[1..], j')
  }

  // ---------------------------------------------------------------- what every step keeps

  /** The connection is closed exactly if it was told so, at the end or too early. */
  ghost predicate Inv<M(!new)>(j: Joint<M>) {
    && P.Inv(j.ws) && P.EndingOk(j.ws)
    && (j.conn.closed <==> j.ws.ended || j.ws.early)
    && exists events :: j.conn == W.Run(W.Init<M>(), events)
  }

  lemma ConnRunsOn<M(!new)>(conn: W.State<M>, e: W.Event<M>)
    requires exists events :: conn == W.Run(W.Init<M>(), events)
    ensures exists events :: W.Apply(conn, e) == W.Run(W.Init<M>(), events)
  {
    var events :| conn == W.Run(W.Init<M>(), events);
    assert (events + [e])[..|events|] == events;
    assert W.Apply(conn, e) == W.Run(W.Init<M>(), events + [e]);
  }

  /** Which of the socket's events leave their mark, and that is what the listener was told. */
  lemma TellsExactly(ws: P.State, e: P.Event)
    requires P.Enabled(ws, e)
    ensures var ws' := P.Apply(ws, e);
            ws'.ended || ws'.early <==> ws.ended || ws.early || (Tells(ws, e) && ws.readyState.CLOSED?)
  {
  }

  lemma StepKeepsInv<M(!new)>(j: Joint<M>, step: Step<M>)
    requires Inv(j) && Enabled(j, step)
    ensures Inv(Apply(j, step))
  {
    var effect := Effect(j, step);
    if effect != [] {
      ConnRunsOn(j.conn, effect[0]);
    }
    if step.OnSocket? {
      TellsExactly(j.ws, step.e);
      P.EventKeepsInv(j.ws, step.e);
      P.EventKeepsEnding(j.ws, step.e);
    }
  }

  lemma {:induction false} RunsKeepInv<M(!new)>(j: Joint<M>, steps: seq<Step<M>>, j': Joint<M>)
    requires Inv(j) && Runs(j, steps, j')
    ensures Inv(j')
    decreases |steps|
  {
    if steps != [] {
      StepKeepsInv(j, steps[0]);
      RunsKeepInv(Apply(j, steps[0]), steps[1..], j');
    }
  }

  lemma InitInv<M(!new)>(maxRetries: int)
    ensures Inv(Init<M>(maxRetries))
  {
    assert W.Init<M>() == W.Run(W.Init<M>(), []);
  }

  // ---------------------------------------------------------------- what every run guarantees

  /** What becomes of a read with no message to come. */
  lemma PendingReads<M(!new)>(conn: W.State<M>, k: nat)
    requires exists events :: conn == W.Run(W.Init<M>(), events)
    requires k < |conn.issued| && conn.issued[k].Promise? && |conn.given| <= k
    ensures k < |conn.settled| && conn.settled[k] == if conn.closed then W.ConnectionClosed else W.Pending
  {
    var events :| conn == W.Run(W.Init<M>(), events);
    W.ReadsSettle(events, k);
  }

  /**
   When all is over, a read without a message has been rejected, unless the retries were used up: then it still pends, for
   no listener was told. (A listener's `close()` during a dispatch tells the connection too early.)
   */
  lemma ReadsPendExactly<M(!new)>(maxRetries: int, steps: seq<Step<M>>, j: Joint<M>, k: nat)
    requires Runs(Init<M>(maxRetries), steps, j) && P.Finished(j.ws) && !j.ws.early
    requires k < |j.conn.issued| && j.conn.issued[k].Promise? && |j.conn.given| <= k
    ensures j.ws.promises != [] && k < |j.conn.settled|
    ensures j.conn.settled[k].Pending? <==> P.Current(j.ws) == P.Rejected(P.MaxRetriesExceeded)
    ensures !j.conn.settled[k].Pending? ==> j.conn.settled[k] == W.ConnectionClosed
  {
    InitInv<M>(maxRetries);
    RunsKeepInv(Init<M>(maxRetries), steps, j);
    PendingReads(j.conn, k);
  }

  /** ... and it pends for ever: whatever happens later, the connection is never told, and rejects or refuses nothing. */
  lemma {:induction false} PendsForEver<M(!new)>(j: Joint<M>, steps: seq<Step<M>>, j': Joint<M>, k: nat)
    requires Inv(j) && P.Finished(j.ws) && P.Current(j.ws) == P.Rejected(P.MaxRetriesExceeded) && !j.ws.early
    requires Runs(j, steps, j')
    ensures Inv(j') && !j'.conn.closed
    ensures k < |j'.conn.issued| && |j'.conn.given| <= k ==> j'.conn.issued[k].Promise? && k < |j'.conn.settled|
                                                             && j'.conn.settled[k].Pending?
    decreases |steps|
  {
    if steps == [] {
      if k < |j.conn.issued| {
        OpenReads(j.conn, k);
      }
    } else {
      StepKeepsInv(j, steps[0]);
      FinishedStep(j, steps[0]);
      PendsForEver(Apply(j, steps[0]), steps[1..], j', k);
    }
  }

  lemma OpenReads<M(!new)>(conn: W.State<M>, k: nat)
    requires exists events :: conn == W.Run(W.Init<M>(), events)
    requires k < |conn.issued| && !conn.closed
    ensures conn.issued[k].Promise?
    ensures |conn.given| <= k ==> k < |conn.settled| && conn.settled[k].Pending?
  {
    var events :| conn == W.Run(W.Init<M>(), events);
    W.ReadsSettle(events, k);
  }

  /** Once nothing is left that could open or close, the socket changes no more. */
  lemma FinishedStep<M(!new)>(j: Joint<M>, step: Step<M>)
    requires Inv(j) && P.Finished(j.ws) && Enabled(j, step)
    ensures Apply(j, step).ws == j.ws
  {
    assert P.Last(j.ws).Gone?;
  }
}
