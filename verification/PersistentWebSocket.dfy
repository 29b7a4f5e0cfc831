/**
 js/src/PersistentWebSocket.ts: the reconnecting socket as an event-driven state machine. Sockets, timers and promises
 are numbered in order of creation; the environment decides which pending event happens next.
 */
module PersistentWebSocket {
  datatype ReadyState = CONNECTING | OPEN | CLOSED

  datatype Reason = ConnectionClosed | MaxRetriesExceeded

  datatype Settlement = Pending | Resolved(ws: nat) | Rejected(reason: Reason)

  datatype Socket = Connecting | Opened | Gone

  /**
   `promises` and `sockets` hold all ever created, the current one last; `timers` counts reconnect timers not yet
   fired; `dispatching` is whether an `onclose` of an open socket is telling its listeners, with the rest of the callback
   still to come; `asked` lists the promises whose socket `close()` is waiting to close. A negative `maxRetries` stands for
   no limit. The rest are histories: which socket opened under which promise, how many sockets closed while the state was
   OPEN, and whether listeners were told of a close while the state was CLOSED: for good (`ended`) or, because one of them
   called `close()`, in the middle of a dispatch (`early`).
   */
  datatype State = State(
    maxRetries: int, readyState: ReadyState, attempts: nat, promises: seq<Settlement>,
    sockets: seq<Socket>, timers: nat, dispatching: bool, asked: seq<nat>,
    opens: seq<(nat, nat)>, openCloses: nat, ended: bool, early: bool)

  /** Listeners run within an `onclose`; one of them may call `close()`. */
  datatype Event = TimerFires | SocketOpens(ws: nat) | SocketCloses(ws: nat) | UserCloses | ListenerRuns | DispatchEnds

  function Init(maxRetries: int): State {
    State(maxRetries, CONNECTING, 0, [Pending], [Connecting], 0, false, [], [], 0, false, false)
  }

  predicate Enabled(s: State, e: Event) {
    match e
    case TimerFires => s.timers > 0 && !s.dispatching
    case SocketOpens(ws) => ws < |s.sockets| && s.sockets[ws].Connecting? && s.promises != [] && !s.dispatching
    case SocketCloses(ws) => ws < |s.sockets| && !s.sockets[ws].Gone? && s.promises != [] && !s.dispatching
    case UserCloses => s.promises != []
    case ListenerRuns => s.dispatching
    case DispatchEnds => s.dispatching
  }

  /** A promise settles once; later attempts do nothing. */
  function Settle(s: State, how: Settlement): State
    requires s.promises != []
  {
    var p := |s.promises| - 1;
    if s.promises[p].Pending? then s.(promises := s.promises[p := how]) else s
  }

  function OnOpen(s: State, ws: nat): State
    requires Enabled(s, SocketOpens(ws))
  {
    Settle(s.(attempts := 0, readyState := OPEN, sockets := s.sockets[ws := Opened],
              opens := s.opens + [(ws, |s.promises| - 1)]),
           Resolved(ws))
  }

  function OnClose(s: State, ws: nat): State
    requires Enabled(s, SocketCloses(ws))
  {
    var s1 := s.(sockets := s.sockets[ws := Gone]);
    match s.readyState
    case OPEN =>
      s1.(promises := s.promises + [Pending], dispatching := true, openCloses := s.openCloses + 1)
    case CLOSED => Settle(s1.(ended := true), Rejected(ConnectionClosed))
    case CONNECTING =>
      if s.attempts == s.maxRetries
      then Settle(s1.(attempts := s.attempts + 1, readyState := CLOSED), Rejected(MaxRetriesExceeded))
      else s1.(attempts := s.attempts + 1, timers := s.timers + 1)
  }

  function Apply(s: State, e: Event): State
    requires Enabled(s, e)
  {
    match e
    case TimerFires => s.(timers := s.timers - 1, sockets := s.sockets + [Connecting])
    case SocketOpens(ws) => OnOpen(s, ws)
    case SocketCloses(ws) => OnClose(s, ws)
    case UserCloses =>
      s.(readyState := CLOSED, asked := if s.readyState.OPEN? then s.asked + [|s.promises| - 1] else s.asked)
    case ListenerRuns => s.(early := s.early || s.readyState.CLOSED?)
    case DispatchEnds => s.(dispatching := false, timers := s.timers + 1, readyState := CONNECTING)
  }

  ghost predicate Runs(s: State, events: seq<Event>, s': State)
    decreases |events|
  {
    if events == [] then s' == s
    else Enabled(s, events[0]) && Runs(Apply(s, events[0]), events[1..], s')
  }

  // ---------------------------------------------------------------- what every event keeps

  /** The newest socket, the only one that can be alive. */
  function Last(s: State): Socket
    requires s.sockets != []
  {
    s.sockets[|s.sockets| - 1]
  }

  function Current(s: State): Settlement
    requires s.promises != []
  {
    s.promises[|s.promises| - 1]
  }

  /** At most one socket is alive, and then no timer runs; CLOSED is where it ends. */
  predicate SocketsOk(s: State) {
    && s.sockets != [] && s.promises != []
    && (forall i | 0 <= i < |s.sockets| - 1 :: s.sockets[i].Gone?)
    && s.timers <= 1 && (!Last(s).Gone? || s.dispatching ==> s.timers == 0)
    && (s.dispatching ==> Last(s).Gone? && !s.readyState.CONNECTING?)
    && (s.readyState.OPEN? ==> Last(s).Opened? || s.dispatching)
    && (s.readyState.CONNECTING? ==> !Last(s).Opened?)
    && (Last(s).Gone? && s.timers == 0 && !s.dispatching ==> s.readyState.CLOSED?)
  }

  /** A socket is connecting or will be. */
  predicate Underway(s: State)
    requires SocketsOk(s)
  {
    Last(s).Connecting? || s.timers == 1 || s.dispatching
  }

  /** Which socket opened under which promise: each promise has at most one, and is resolved with it. */
  predicate OpensOk(promises: seq<Settlement>, opens: seq<(nat, nat)>) {
    && (forall i | 0 <= i < |opens| :: opens[i].1 < |promises| && promises[opens[i].1] == Resolved(opens[i].0))
    && (forall i, j | 0 <= i < j < |opens| :: opens[i].1 != opens[j].1)
    && (forall p | 0 <= p < |promises| && promises[p].Resolved? :: (promises[p].ws, p) in opens)
  }

  /** The current promise waits while a connection is being made; earlier ones are resolved. */
  predicate PromisesOk(s: State)
    requires SocketsOk(s)
  {
    && (forall p | 0 <= p < |s.promises| - 1 :: s.promises[p].Resolved?)
    && (Last(s).Opened? ==> Current(s) == Resolved(|s.sockets| - 1))
    && (Underway(s) ==> Current(s).Pending?)
    && OpensOk(s.promises, s.opens)
  }

  /** (M + 1) times the closes seen while OPEN: what those closes allow. */
  function Allowance(m: nat, closes: nat): nat {
    (m + 1) * closes
  }

  lemma AllowanceStep(m: nat, closes: nat)
    ensures Allowance(m, closes + 1) == Allowance(m, closes) + m + 1 == (m + 1) * (1 + closes)
  {
  }

  predicate AttemptsOk(s: State)
    requires SocketsOk(s)
  {
    s.maxRetries >= 0 ==>
      var base := Allowance(s.maxRetries, s.openCloses);
      if Last(s).Connecting? then |s.sockets| <= base + s.attempts + 1 && s.attempts <= s.maxRetries
      else if s.timers == 1 || s.dispatching then |s.sockets| <= base + s.attempts && s.attempts <= s.maxRetries
      else |s.sockets| <= base + s.maxRetries + 1 && (Last(s).Opened? ==> s.attempts == 0)
  }

  ghost predicate Inv(s: State) {
    SocketsOk(s) && PromisesOk(s) && AttemptsOk(s)
  }

  lemma OpenKeepsSockets(s: State, ws: nat)
    requires SocketsOk(s) && Enabled(s, SocketOpens(ws))
    ensures ws == |s.sockets| - 1 && SocketsOk(OnOpen(s, ws))
  {
  }

  lemma CloseKeepsSockets(s: State, ws: nat)
    requires SocketsOk(s) && Enabled(s, SocketCloses(ws))
    ensures ws == |s.sockets| - 1 && SocketsOk(OnClose(s, ws))
  {
  }

  lemma EventKeepsSockets(s: State, e: Event)
    requires SocketsOk(s) && Enabled(s, e)
    ensures SocketsOk(Apply(s, e))
  {
    match e {
      case SocketOpens(ws) => OpenKeepsSockets(s, ws);
      case SocketCloses(ws) => CloseKeepsSockets(s, ws);
      case _ =>
    }
  }

  lemma OpensResolve(promises: seq<Settlement>, opens: seq<(nat, nat)>, ws: nat)
    requires OpensOk(promises, opens) && promises != [] && promises[|promises| - 1].Pending?
    ensures OpensOk(promises[|promises| - 1 := Resolved(ws)], opens + [(ws, |promises| - 1)])
  {
    var last := |promises| - 1;
    var promises', opens' := promises[last := Resolved(ws)], opens + [(ws, last)];
    assert opens'[|opens|] == (ws, last);
    forall p | 0 <= p < |promises'| && promises'[p].Resolved? ensures (promises'[p].ws, p) in opens' {
      if p < last {
        assert (promises[p].ws, p) in opens;
      }
    }
  }

  /** Promises that stay, and promises that are not resolved and do not get resolved. */
  lemma OpensFrame(promises: seq<Settlement>, promises': seq<Settlement>, opens: seq<(nat, nat)>)
    requires OpensOk(promises, opens) && |promises| <= |promises'|
    requires forall p | 0 <= p < |promises| ::
               promises'[p] == promises[p] || (!promises[p].Resolved? && !promises'[p].Resolved?)
    requires forall p | |promises| <= p < |promises'| :: !promises'[p].Resolved?
    ensures OpensOk(promises', opens)
  {
    forall p | 0 <= p < |promises'| && promises'[p].Resolved? ensures (promises'[p].ws, p) in opens {
      assert (promises[p].ws, p) in opens;
    }
  }

  lemma OpenKeepsPromises(s: State, ws: nat)
    requires SocketsOk(s) && PromisesOk(s) && Enabled(s, SocketOpens(ws))
    ensures SocketsOk(OnOpen(s, ws)) && PromisesOk(OnOpen(s, ws))
  {
    OpenKeepsSockets(s, ws);
    OpensResolve(s.promises, s.opens, ws);
    var s' := OnOpen(s, ws);
    assert s'.promises == s.promises[|s.promises| - 1 := Resolved(ws)] && s'.opens == s.opens + [(ws, |s.promises| - 1)];
  }

  /** What `onclose` does to the promises: a new one, or at most a rejection of the current one. */
  lemma ClosePromises(s: State, ws: nat)
    requires Enabled(s, SocketCloses(ws))
    ensures var q, n := OnClose(s, ws).promises, |s.promises|;
            && (s.readyState.OPEN? ==> q == s.promises + [Pending])
            && (!s.readyState.OPEN? ==> |q| == n && (forall p | 0 <= p < n - 1 :: q[p] == s.promises[p])
                                        && (q[n - 1] == Current(s) || (Current(s).Pending? && q[n - 1].Rejected?)))
    ensures OnClose(s, ws).opens == s.opens
  {
  }

  lemma CloseKeepsOpens(s: State, ws: nat)
    requires Enabled(s, SocketCloses(ws)) && OpensOk(s.promises, s.opens)
    ensures OpensOk(OnClose(s, ws).promises, OnClose(s, ws).opens)
  {
    ClosePromises(s, ws);
    OpensFrame(s.promises, OnClose(s, ws).promises, s.opens);
  }

  /** A close that leaves something under way leaves the current promise pending. */
  lemma CloseKeepsWaiting(s: State, ws: nat)
    requires SocketsOk(s) && PromisesOk(s) && Enabled(s, SocketCloses(ws)) && SocketsOk(OnClose(s, ws))
    ensures Last(OnClose(s, ws)).Gone? && (Underway(OnClose(s, ws)) ==> Current(OnClose(s, ws)).Pending?)
  {
    CloseKeepsSockets(s, ws);
  }

  lemma CloseKeepsPromises(s: State, ws: nat)
    requires SocketsOk(s) && PromisesOk(s) && Enabled(s, SocketCloses(ws))
    ensures SocketsOk(OnClose(s, ws)) && PromisesOk(OnClose(s, ws))
  {
    CloseKeepsSockets(s, ws);
    ClosePromises(s, ws);
    CloseKeepsOpens(s, ws);
    CloseKeepsWaiting(s, ws);
    var s' := OnClose(s, ws);
    forall p | 0 <= p < |s'.promises| - 1 ensures s'.promises[p].Resolved? {
      assert s'.promises[p] == s.promises[p];
    }
  }

  /** The other events leave the promises alone, and nobody who is waited for appears or disappears. */
  lemma OthersKeepPromises(s: State, e: Event)
    requires SocketsOk(s) && PromisesOk(s) && Enabled(s, e) && !e.SocketOpens? && !e.SocketCloses?
    ensures SocketsOk(Apply(s, e)) && PromisesOk(Apply(s, e))
  {
    EventKeepsSockets(s, e);
    var s' := Apply(s, e);
    assert s'.promises == s.promises && s'.opens == s.opens;
    assert Underway(s') <==> Underway(s);
    assert Last(s').Opened? ==> s'.sockets == s.sockets;
  }

  lemma EventKeepsPromises(s: State, e: Event)
    requires SocketsOk(s) && PromisesOk(s) && Enabled(s, e)
    ensures SocketsOk(Apply(s, e)) && PromisesOk(Apply(s, e))
  {
    match e {
      case SocketOpens(ws) => OpenKeepsPromises(s, ws);
      case SocketCloses(ws) => CloseKeepsPromises(s, ws);
      case _ => OthersKeepPromises(s, e);
    }
  }

  lemma CloseKeepsAttempts(s: State, ws: nat)
    requires SocketsOk(s) && AttemptsOk(s) && Enabled(s, SocketCloses(ws))
    ensures SocketsOk(OnClose(s, ws)) && AttemptsOk(OnClose(s, ws))
  {
    CloseKeepsSockets(s, ws);
    if s.maxRetries >= 0 {
      AllowanceStep(s.maxRetries, s.openCloses);
    }
  }

  lemma EventKeepsAttempts(s: State, e: Event)
    requires SocketsOk(s) && AttemptsOk(s) && Enabled(s, e)
    ensures SocketsOk(Apply(s, e)) && AttemptsOk(Apply(s, e))
  {
    EventKeepsSockets(s, e);
    if e.SocketCloses? {
      CloseKeepsAttempts(s, e.ws);
    }
  }

  lemma EventKeepsInv(s: State, e: Event)
    requires Inv(s) && Enabled(s, e)
    ensures Inv(Apply(s, e)) && Apply(s, e).maxRetries == s.maxRetries
  {
    EventKeepsPromises(s, e);
    EventKeepsAttempts(s, e);
  }

  lemma {:induction false} RunsKeepInv(s: State, events: seq<Event>, s': State)
    requires Inv(s) && Runs(s, events, s')
    ensures Inv(s') && s'.maxRetries == s.maxRetries
    decreases |events|
  {
    if events != [] {
      EventKeepsInv(s, events[0]);
      RunsKeepInv(Apply(s, events[0]), events[1..], s');
    }
  }

  // ---------------------------------------------------------------- what every run guarantees

  function LiveSockets(sockets: seq<Socket>): nat {
    if sockets == [] then 0
    else LiveSockets(sockets[..|sockets| - 1]) + if sockets[|sockets| - 1].Gone? then 0 else 1
  }

  lemma {:induction false} AllGone(sockets: seq<Socket>)
    requires forall i | 0 <= i < |sockets| :: sockets[i].Gone?
    ensures LiveSockets(sockets) == 0
  {
    if sockets != [] {
      AllGone(sockets[..|sockets| - 1]);
    }
  }

  /** One connection at a time, and no more attempts than the retry limit allows for the closes there were. */
  lemma BoundedReconnection(m: int, events: seq<Event>, s: State)
    requires Runs(Init(m), events, s)
    ensures LiveSockets(s.sockets) + s.timers <= 1
    ensures m >= 0 ==> |s.sockets| <= (m + 1) * (1 + s.openCloses)
  {
    RunsKeepInv(Init(m), events, s);
    OneAtATime(s);
    if m >= 0 {
      AllowanceStep(m, s.openCloses);
      AttemptsBounded(s);
    }
  }

  lemma OneAtATime(s: State)
    requires SocketsOk(s)
    ensures LiveSockets(s.sockets) + s.timers <= 1
  {
    AllGone(s.sockets[..|s.sockets| - 1]);
  }

  lemma AttemptsBounded(s: State)
    requires SocketsOk(s) && AttemptsOk(s) && s.maxRetries >= 0
    ensures |s.sockets| <= Allowance(s.maxRetries, s.openCloses) + s.maxRetries + 1
  {
  }

  lemma {:induction false} RunsJoin(s: State, events: seq<Event>, s1: State, more: seq<Event>, s2: State)
    requires Runs(s, events, s1) && Runs(s1, more, s2)
    ensures Runs(s, events + more, s2)
    decreases |events|
  {
    if events == [] {
      assert events + more == more;
    } else {
      assert (events + more)[1..] == events[1..] + more;
      RunsJoin(Apply(s, events[0]), events[1..], s1, more, s2);
    }
  }

  lemma RunsOneMore(s: State, events: seq<Event>, s1: State, e: Event)
    requires Runs(s, events, s1) && Enabled(s1, e)
    ensures Runs(s, events + [e], Apply(s1, e))
  {
    assert [e][1..] == [];
    assert Runs(Apply(s1, e), [], Apply(s1, e));
    RunsJoin(s, events, s1, [e], Apply(s1, e));
  }

  /** Socket number `n` is connecting, after `attempts` failures in a row. */
  predicate Trying(s: State, n: nat, attempts: nat) {
    && SocketsOk(s) && s.readyState.CONNECTING? && Last(s).Connecting?
    && |s.sockets| == n && s.attempts == attempts && s.maxRetries >= 0
  }

  /** Below the limit every failure is followed by another attempt. */
  lemma {:induction false} FailTimes(m: nat, events: seq<Event>, s: State, n: nat, k: nat)
      returns (events': seq<Event>, s': State)
    requires Runs(Init(m), events, s) && Trying(s, n, 0) && s.maxRetries == m && k <= m
    ensures Runs(Init(m), events', s') && Trying(s', n + k, k) && s'.maxRetries == m && s'.openCloses == s.openCloses
  {
    if k == 0 {
      events', s' := events, s;
    } else {
      var es, t := FailTimes(m, events, s, n, k - 1);
      var t1 := Apply(t, SocketCloses(n + k - 2));
      RunsOneMore(Init(m), es, t, SocketCloses(n + k - 2));
      RunsOneMore(Init(m), es + [SocketCloses(n + k - 2)], t1, TimerFires);
      events', s' := es + [SocketCloses(n + k - 2)] + [TimerFires], Apply(t1, TimerFires);
    }
  }

  /** An opened socket that closes starts over, with the count of failures back at zero. */
  lemma OpenAndLose(m: nat, events: seq<Event>, s: State, n: nat, a: nat) returns (events': seq<Event>, s': State)
    requires Runs(Init(m), events, s) && Trying(s, n, a) && s.maxRetries == m
    ensures Runs(Init(m), events', s') && Trying(s', n + 1, 0) && s'.maxRetries == m && s'.openCloses == s.openCloses + 1
  {
    var opens, closes := SocketOpens(n - 1), SocketCloses(n - 1);
    RunsOneMore(Init(m), events, s, opens);
    var s1 := Apply(s, opens);
    RunsOneMore(Init(m), events + [opens], s1, closes);
    var s2 := Apply(s1, closes);
    events', s' := Reconnect(m, events + [opens] + [closes], s2);
    OpenThenClose(s, n, a);
  }

  lemma OpenThenClose(s: State, n: nat, a: nat)
    requires Trying(s, n, a)
    ensures var s2 := Apply(Apply(s, SocketOpens(n - 1)), SocketCloses(n - 1));
            && SocketsOk(s2) && s2.dispatching && s2.attempts == 0 && |s2.sockets| == n
            && s2.maxRetries == s.maxRetries && s2.openCloses == s.openCloses + 1
  {
    OpenKeepsSockets(s, n - 1);
    CloseKeepsSockets(OnOpen(s, n - 1), n - 1);
  }

  lemma Reconnect(m: nat, events: seq<Event>, s: State) returns (events': seq<Event>, s': State)
    requires Runs(Init(m), events, s) && s.dispatching && s.timers == 0
    ensures Runs(Init(m), events', s') && s' == s.(dispatching := false, readyState := CONNECTING, sockets := s.sockets + [Connecting])
  {
    var s1 := Apply(s, DispatchEnds);
    RunsOneMore(Init(m), events, s, DispatchEnds);
    RunsOneMore(Init(m), events + [DispatchEnds], s1, TimerFires);
    events', s' := events + [DispatchEnds] + [TimerFires], Apply(s1, TimerFires);
  }

  lemma {:induction false} UseAllAttempts(m: nat, closes: nat) returns (events: seq<Event>, s: State)
    ensures Runs(Init(m), events, s) && s.openCloses == closes && s.maxRetries == m
    ensures Trying(s, Allowance(m, closes) + m + 1, m)
  {
    if closes == 0 {
      assert Runs(Init(m), [], Init(m));
      events, s := FailTimes(m, [], Init(m), 1, m);
    } else {
      var n := Allowance(m, closes - 1) + m + 1;
      AllowanceStep(m, closes - 1);
      events, s := UseAllAttempts(m, closes - 1);
      events, s := OpenAndLose(m, events, s, n, m);
      events, s := FailTimes(m, events, s, n + 1, m);
    }
  }

  /** For every retry limit and every number of closes some run makes exactly as many attempts as the bound allows. */
  lemma BoundIsTight(m: nat, closes: nat) returns (events: seq<Event>, s: State)
    ensures Runs(Init(m), events, s) && s.openCloses == closes
    ensures |s.sockets| == (m + 1) * (1 + closes)
  {
    events, s := UseAllAttempts(m, closes);
    AllowanceStep(m, closes);
  }

  /** Nothing is left that could open or close. */
  predicate Finished(s: State) {
    s.timers == 0 && !s.dispatching && forall i | 0 <= i < |s.sockets| :: s.sockets[i].Gone?
  }

  /** Once no socket and no timer is left, the state is CLOSED and nothing changes any more. */
  lemma {:induction false} FinishedIsFinal(m: int, before: seq<Event>, s: State, after: seq<Event>, s': State)
    requires Runs(Init(m), before, s) && Finished(s) && Runs(s, after, s')
    ensures s'.readyState.CLOSED? && s' == s
    decreases |after|
  {
    RunsKeepInv(Init(m), before, s);
    assert Last(s).Gone?;
    if after != [] {
      FinishedIsFinal(m, before, s, after[1..], s');
    }
  }

  /**
   A promise is resolved exactly if a socket has opened under it, with that socket, and no two sockets open under the
   same promise: whatever waits on one promise goes to one socket.
   */
  lemma OneSocketPerPromise(m: int, events: seq<Event>, s: State, p: nat, ws: nat)
    requires Runs(Init(m), events, s) && p < |s.promises|
    ensures s.promises[p] == Resolved(ws) <==> (ws, p) in s.opens
    ensures forall ws' :: (ws, p) in s.opens && (ws', p) in s.opens ==> ws == ws'
  {
    RunsKeepInv(Init(m), events, s);
    forall w | (w, p) in s.opens ensures s.promises[p] == Resolved(w) {
      var i :| 0 <= i < |s.opens| && s.opens[i] == (w, p);
      assert s.promises[s.opens[i].1] == Resolved(s.opens[i].0);
    }
  }

  lemma {:induction false} QuietStaysClosed(s: State, events: seq<Event>, s': State)
    requires SocketsOk(s) && s.readyState.CLOSED? && !Underway(s) && Runs(s, events, s')
    ensures s'.readyState.CLOSED?
    decreases |events|
  {
    if events != [] {
      EventKeepsSockets(s, events[0]);
      QuietStaysClosed(Apply(s, events[0]), events[1..], s');
    }
  }

  /** A socket that is connecting, or about to be created, opens: CLOSED is undone. */
  lemma OpensAgain(s: State) returns (events: seq<Event>, s': State)
    requires SocketsOk(s) && Underway(s)
    ensures Runs(s, events, s') && s'.readyState.OPEN?
  {
    var s1 := if s.dispatching then Apply(s, DispatchEnds) else s;
    var s2 := if s1.timers == 1 then Apply(s1, TimerFires) else s1;
    var opens := SocketOpens(|s2.sockets| - 1);
    s' := Apply(s2, opens);
    assert [opens][1..] == [];
    assert Runs(s2, [opens], s');
    var two := if s1.timers == 1 then [TimerFires, opens] else [opens];
    assert s1.timers == 1 ==> two[1..] == [opens];
    assert Runs(s1, two, s');
    events := if s.dispatching then [DispatchEnds] + two else two;
    assert s.dispatching ==> events[1..] == two;
  }

  ghost predicate StaysClosed(s: State) {
    forall after, s' | Runs(s, after, s') :: s'.readyState.CLOSED?
  }

  /** Nothing is connecting, scheduled to, or about to be scheduled because an open socket's `onclose` is in its dispatch. */
  predicate AtRest(s: State) {
    s.timers == 0 && !s.dispatching && forall i | 0 <= i < |s.sockets| :: !s.sockets[i].Connecting?
  }

  /** CLOSED is final exactly when no socket is connecting, no timer is pending and no open socket's close is dispatched. */
  lemma ClosedIsFinalExactly(m: int, events: seq<Event>, s: State)
    requires Runs(Init(m), events, s) && s.readyState.CLOSED?
    ensures StaysClosed(s) <==> AtRest(s)
  {
    RunsKeepInv(Init(m), events, s);
    StaysClosedExactly(s);
  }

  lemma StaysClosedExactly(s: State)
    requires Inv(s) && s.readyState.CLOSED?
    ensures StaysClosed(s) <==> AtRest(s)
  {
    if AtRest(s) {
      forall after, s' | Runs(s, after, s') ensures s'.readyState.CLOSED? {
        QuietStaysClosed(s, after, s');
      }
    } else {
      assert Underway(s);
      var after, s' := OpensAgain(s);
      assert Runs(s, after, s') && !s'.readyState.CLOSED?;
    }
  }

  /**
   A `close()` by a listener told of an open socket's close is always undone: the callback goes on to schedule a socket. And
   as it waits on the new promise, it is that next socket that gets closed.
   */
  lemma ListenerCloseUndone(m: int, events: seq<Event>, s: State)
    requires Runs(Init(m), events, s) && s.dispatching && s.readyState.OPEN?
    ensures Enabled(s, UserCloses) && Enabled(Apply(s, UserCloses), DispatchEnds)
    ensures var s' := Apply(Apply(s, UserCloses), DispatchEnds);
            && s'.readyState.CONNECTING? && s'.timers == 1
            && Current(s').Pending? && |s'.promises| - 1 in s'.asked
  {
    RunsKeepInv(Init(m), events, s);
    UndoneFrom(s);
  }

  lemma UndoneFrom(s: State)
    requires SocketsOk(s) && PromisesOk(s) && s.dispatching && s.readyState.OPEN?
    ensures var s' := Apply(Apply(s, UserCloses), DispatchEnds);
            && s'.readyState.CONNECTING? && s'.timers == 1
            && Current(s').Pending? && |s'.promises| - 1 in s'.asked
  {
    var s1 := Apply(s, UserCloses);
    assert s1.asked == s.asked + [|s.promises| - 1] && s1.promises == s.promises && s1.timers == 0;
    assert Apply(s1, DispatchEnds).asked == s1.asked;
    assert s1.asked[|s.asked|] == |s.promises| - 1;
  }

  /** Outside a dispatch, a `close()` while OPEN asks for the one live socket, and in no other state for any. */
  lemma CloseAsksLiveSocket(m: int, events: seq<Event>, s: State)
    requires Runs(Init(m), events, s)
    ensures Enabled(s, UserCloses) && s.sockets != []
    ensures var s' := Apply(s, UserCloses);
            && s'.promises != [] && s'.readyState.CLOSED? && s'.sockets == s.sockets
            && (s.readyState.OPEN? ==> s'.asked == s.asked + [|s.promises| - 1])
            && (s.readyState.OPEN? && !s.dispatching ==> Last(s).Opened? && Current(s') == Resolved(|s.sockets| - 1))
            && (!s.readyState.OPEN? ==> s'.asked == s.asked)
  {
    RunsKeepInv(Init(m), events, s);
  }

  // ---------------------------------------------------------------- what listeners are told

  /** How it ended, if it did: with a close event that listeners see as final, or with the retries used up. */
  predicate EndingOk(s: State)
    requires SocketsOk(s)
  {
    && (s.ended ==> Last(s).Gone? && s.timers == 0 && !s.dispatching && Current(s) != Rejected(MaxRetriesExceeded))
    && (Last(s).Gone? && s.timers == 0 && !s.dispatching && !s.ended ==> Current(s) == Rejected(MaxRetriesExceeded))
    && (Current(s) == Rejected(MaxRetriesExceeded) ==> Last(s).Gone? && s.timers == 0 && !s.dispatching)
  }

  lemma EventKeepsEnding(s: State, e: Event)
    requires Inv(s) && EndingOk(s) && Enabled(s, e)
    ensures SocketsOk(Apply(s, e)) && EndingOk(Apply(s, e))
  {
    EventKeepsSockets(s, e);
    if e.SocketCloses? {
      CloseKeepsEnding(s, e.ws);
    } else if !e.SocketOpens? {
      assert Apply(s, e).promises == s.promises;
    }
  }

  lemma CloseKeepsEnding(s: State, ws: nat)
    requires Inv(s) && EndingOk(s) && Enabled(s, SocketCloses(ws))
    ensures SocketsOk(OnClose(s, ws)) && EndingOk(OnClose(s, ws))
  {
    CloseKeepsSockets(s, ws);
  }

  lemma {:induction false} RunsKeepEnding(s: State, events: seq<Event>, s': State)
    requires Inv(s) && EndingOk(s) && Runs(s, events, s')
    ensures Inv(s') && EndingOk(s')
    decreases |events|
  {
    if events != [] {
      EventKeepsInv(s, events[0]);
      EventKeepsEnding(s, events[0]);
      RunsKeepEnding(Apply(s, events[0]), events[1..], s');
    }
  }

  /** Listeners are told of a final close exactly if it is all over, and not because the retries were used up. */
  lemma FinalCloseToldExactly(m: int, events: seq<Event>, s: State)
    requires Runs(Init(m), events, s)
    ensures s.promises != []
    ensures s.ended <==> Finished(s) && Current(s) != Rejected(MaxRetriesExceeded)
  {
    RunsKeepEnding(Init(m), events, s);
  }

  // ---------------------------------------------------------------- when it gives up

  /** How many sockets have failed since one opened last; the newest counts once it is gone. */
  function FailedSince(s: State): int
    requires s.sockets != []
  {
    |s.sockets| - (if s.opens == [] then 0 else s.opens[|s.opens| - 1].0 + 1) - (if Last(s).Connecting? then 1 else 0)
  }

  predicate RetriesOk(s: State)
    requires SocketsOk(s)
  {
    && (Current(s) == Rejected(MaxRetriesExceeded) <==> s.maxRetries >= 0 && s.attempts == s.maxRetries + 1)
    && (!s.ended ==> s.attempts == FailedSince(s))
  }

  lemma CloseKeepsRetries(s: State, ws: nat)
    requires Inv(s) && EndingOk(s) && RetriesOk(s) && Enabled(s, SocketCloses(ws))
    ensures SocketsOk(OnClose(s, ws)) && RetriesOk(OnClose(s, ws))
  {
    CloseKeepsSockets(s, ws);
  }

  lemma OpenKeepsRetries(s: State, ws: nat)
    requires Inv(s) && Enabled(s, SocketOpens(ws))
    ensures SocketsOk(OnOpen(s, ws)) && RetriesOk(OnOpen(s, ws))
  {
    OpenKeepsSockets(s, ws);
  }

  lemma EventKeepsRetries(s: State, e: Event)
    requires Inv(s) && EndingOk(s) && RetriesOk(s) && Enabled(s, e)
    ensures SocketsOk(Apply(s, e)) && RetriesOk(Apply(s, e))
  {
    EventKeepsSockets(s, e);
    match e {
      case SocketOpens(ws) => OpenKeepsRetries(s, ws);
      case SocketCloses(ws) => CloseKeepsRetries(s, ws);
      case _ => assert Apply(s, e).promises == s.promises && Apply(s, e).opens == s.opens;
    }
  }

  lemma {:induction false} RunsKeepRetries(s: State, events: seq<Event>, s': State)
    requires Inv(s) && EndingOk(s) && RetriesOk(s) && Runs(s, events, s')
    ensures Inv(s') && EndingOk(s') && RetriesOk(s') && s'.maxRetries == s.maxRetries
    decreases |events|
  {
    if events != [] {
      EventKeepsInv(s, events[0]);
      EventKeepsEnding(s, events[0]);
      EventKeepsRetries(s, events[0]);
      RunsKeepRetries(Apply(s, events[0]), events[1..], s');
    }
  }

  /** It gives up exactly when one socket more than the limit has failed in a row, and without a limit never. */
  lemma GivesUpExactly(m: int, events: seq<Event>, s: State)
    requires Runs(Init(m), events, s)
    ensures s.promises != [] && s.sockets != []
    ensures Current(s) == Rejected(MaxRetriesExceeded) <==> m >= 0 && !s.ended && FailedSince(s) == m + 1
  {
    RunsKeepRetries(Init(m), events, s);
  }

  /** What the state is when nobody calls `close()`. */
  predicate StateIsSockets(s: State)
    requires SocketsOk(s)
  {
    && !s.ended
    && s.readyState == if Last(s).Opened? || s.dispatching then OPEN else if Underway(s) then CONNECTING else CLOSED
  }

  lemma EventKeepsState(s: State, e: Event)
    requires SocketsOk(s) && StateIsSockets(s) && Enabled(s, e) && e != UserCloses
    ensures SocketsOk(Apply(s, e)) && StateIsSockets(Apply(s, e))
  {
    EventKeepsSockets(s, e);
  }

  lemma {:induction false} RunsKeepState(s: State, events: seq<Event>, s': State)
    requires SocketsOk(s) && StateIsSockets(s) && Runs(s, events, s') && UserCloses !in events
    ensures SocketsOk(s') && StateIsSockets(s')
    decreases |events|
  {
    if events != [] {
      assert events[0] in events;
      EventKeepsState(s, events[0]);
      RunsKeepState(Apply(s, events[0]), events[1..], s');
    }
  }

  /** Unless `close()` is called, the state tells what the newest socket does, and CLOSED that it has given up. */
  lemma StateExactly(m: int, events: seq<Event>, s: State)
    requires Runs(Init(m), events, s) && UserCloses !in events
    ensures s.promises != [] && s.sockets != []
    ensures s.readyState.OPEN? <==> Last(s).Opened? || s.dispatching
    ensures s.readyState.CLOSED? <==> Current(s) == Rejected(MaxRetriesExceeded)
  {
    RunsKeepEnding(Init(m), events, s);
    RunsKeepState(Init(m), events, s);
  }

  /** A whole `onclose`, with listeners that may call `close()`. */
  function WholeClose(s: State, ws: nat, listenerCloses: bool): State
    requires Enabled(s, SocketCloses(ws))
  {
    var s1 := Apply(s, SocketCloses(ws));
    if !s1.dispatching || s1.promises == [] then s1
    else Apply(if listenerCloses then Apply(s1, UserCloses) else s1, DispatchEnds)
  }

  lemma WholeCloseKeepsInv(s: State, ws: nat, listenerCloses: bool)
    requires Inv(s) && Enabled(s, SocketCloses(ws))
    ensures Inv(WholeClose(s, ws, listenerCloses))
  {
    var s1 := Apply(s, SocketCloses(ws));
    EventKeepsInv(s, SocketCloses(ws));
    if s1.dispatching {
      EventKeepsInv(s1, UserCloses);
      EventKeepsInv(if listenerCloses then Apply(s1, UserCloses) else s1, DispatchEnds);
    }
  }

  /** Either one reconnect timer is pending and sends can wait, or all is over and nobody is left waiting. */
  predicate Settled(s: State) {
    && s.promises != [] && !s.dispatching && LiveSockets(s.sockets) == 0
    && s.timers == (if s.readyState.CLOSED? then 0 else 1) && (Current(s).Pending? <==> !s.readyState.CLOSED?)
  }

  lemma WholeCloseSettles(s: State, ws: nat, listenerCloses: bool)
    requires Inv(s) && Enabled(s, SocketCloses(ws))
    ensures Settled(WholeClose(s, ws, listenerCloses))
    ensures s.readyState.OPEN? ==> WholeClose(s, ws, listenerCloses).readyState.CONNECTING?
  {
    CloseKeepsSockets(s, ws);
    AllGone(s.sockets[ws := Gone]);
    if s.readyState.OPEN? {
      OpenCloseSettles(s, ws, listenerCloses);
    } else {
      assert WholeClose(s, ws, listenerCloses) == OnClose(s, ws);
      OtherCloseSettles(s, ws);
    }
  }

  lemma OpenCloseSettles(s: State, ws: nat, listenerCloses: bool)
    requires SocketsOk(s) && Enabled(s, SocketCloses(ws)) && s.readyState.OPEN? && LiveSockets(s.sockets[ws := Gone]) == 0
    ensures var s' := WholeClose(s, ws, listenerCloses); Settled(s') && s'.readyState.CONNECTING?
  {
    var s' := WholeClose(s, ws, listenerCloses);
    assert s'.promises == s.promises + [Pending] && s'.sockets == s.sockets[ws := Gone];
    assert s'.timers == s.timers + 1 == 1 && s'.readyState.CONNECTING? && !s'.dispatching;
  }

  lemma OtherCloseSettles(s: State, ws: nat)
    requires Inv(s) && Enabled(s, SocketCloses(ws)) && !s.readyState.OPEN? && LiveSockets(s.sockets[ws := Gone]) == 0
    ensures Settled(OnClose(s, ws))
  {
    CloseKeepsSockets(s, ws);
    assert OnClose(s, ws).sockets == s.sockets[ws := Gone];
  }

  lemma WholeCloseAsks(s: State, ws: nat)
    requires Enabled(s, SocketCloses(ws)) && s.readyState.OPEN?
    ensures |WholeClose(s, ws, true).promises| - 1 in WholeClose(s, ws, true).asked
  {
    assert WholeClose(s, ws, true).asked[|s.asked|] == |s.promises|;
  }

  /** A close while connecting counts as a failure, and is the last exactly at the limit; each kind of close has its own error. */
  predicate ClosesAsStated(s: State, s': State)
    requires s.promises != [] && s'.promises != []
  {
    && s'.attempts == s.attempts + (if s.readyState.CONNECTING? then 1 else 0)
    && s'.readyState == (if s.readyState.CONNECTING? && s.attempts == s.maxRetries then CLOSED
                         else if s.readyState.OPEN? then CONNECTING else s.readyState)
    && (s.readyState.OPEN? ==> |s'.promises| == |s.promises| + 1)
    && (!s.readyState.OPEN? && Current(s).Pending? && !Current(s').Pending? ==>
          Current(s') == Rejected(if s.readyState.CLOSED? then ConnectionClosed else MaxRetriesExceeded))
  }

  lemma WholeCloseStated(s: State, ws: nat, listenerCloses: bool)
    requires Enabled(s, SocketCloses(ws)) && WholeClose(s, ws, listenerCloses).promises != []
    ensures ClosesAsStated(s, WholeClose(s, ws, listenerCloses))
  {
  }

  lemma OpenResolves(s: State, ws: nat)
    requires Inv(s) && Enabled(s, SocketOpens(ws))
    ensures Inv(Apply(s, SocketOpens(ws))) && ws == |Apply(s, SocketOpens(ws)).sockets| - 1
    ensures Current(s).Pending? && Current(Apply(s, SocketOpens(ws))) == Resolved(ws)
  {
    EventKeepsInv(s, SocketOpens(ws));
    OpenKeepsSockets(s, ws);
  }

  // ---------------------------------------------------------------- the closures themselves

  /** The variables that `createPersistentWebSocket` closes over, and its callbacks. */
  class Closure {
    const maxRetries: int
    var readyState: ReadyState
    var attempts: nat
    var promises: seq<Settlement>
    var sockets: seq<Socket>
    var timers: nat
    var asked: seq<nat>
    ghost var dispatching: bool
    ghost var opens: seq<(nat, nat)>
    ghost var openCloses: nat
    ghost var ended: bool
    ghost var early: bool

    ghost function View(): State reads this {
      State(maxRetries, readyState, attempts, promises, sockets, timers, dispatching, asked, opens, openCloses, ended, early)
    }

    ghost predicate Valid() reads this {
      Inv(View())
    }

    constructor (maxRetries: int)
      ensures Valid() && View() == Init(maxRetries)
    {
      this.maxRetries := maxRetries;
      readyState, attempts, promises, sockets, timers, asked := CONNECTING, 0, [Pending], [Connecting], 0, [];
      dispatching, opens, openCloses, ended, early := false, [], 0, false, false;
    }

    /** `resolve` or `reject` of the current triplet. */
    method SettleCurrent(how: Settlement)
      requires promises != []
      modifies this`promises
      ensures View() == Settle(old(View()), how)
    {
      if promises[|promises| - 1].Pending? {
        promises := promises[|promises| - 1 := how];
      }
    }

    /** The reconnect timer fires: its socket is the only one alive, and whoever waits goes on waiting. */
    method Connect()
      requires Valid() && timers > 0
      modifies this
      ensures Valid() && View() == Apply(old(View()), TimerFires)
      ensures timers == 0 && Current(View()).Pending? && LiveSockets(sockets) == 1 && Last(View()).Connecting?
      ensures readyState == old(readyState) && attempts == old(attempts)
    {
      EventKeepsInv(View(), TimerFires);
      timers := timers - 1;
      sockets := sockets + [Connecting];
      AllGone(sockets[..|sockets| - 1]);
    }

    /** The assignments of `onopen`. */
    method OpenCallback(ws: nat)
      requires Enabled(View(), SocketOpens(ws))
      modifies this
      ensures View() == Apply(old(View()), SocketOpens(ws))
    {
      sockets := sockets[ws := Opened];
      attempts := 0;
      readyState := OPEN;
      opens := opens + [(ws, |promises| - 1)];
      SettleCurrent(Resolved(ws));
    }

    /** `onopen`: the failures are forgotten, and everybody who waited gets this socket, which is the newest. */
    method HandleOpen(ws: nat)
      requires Valid() && Enabled(View(), SocketOpens(ws))
      modifies this
      ensures Valid() && View() == Apply(old(View()), SocketOpens(ws))
      ensures ws == |sockets| - 1 && old(Current(View())).Pending? && Current(View()) == Resolved(ws)
      ensures readyState.OPEN? && attempts == 0
    {
      OpenResolves(View(), ws);
      OpenCallback(ws);
    }

    /** `onclose` up to the dispatch, or to its end when no more is to come; `goesOn` is whether more is. */
    method CloseCallback(ws: nat) returns (goesOn: bool)
      requires Enabled(View(), SocketCloses(ws))
      modifies this
      ensures View() == Apply(old(View()), SocketCloses(ws)) && goesOn == dispatching
    {
      sockets := sockets[ws := Gone];
      if readyState.OPEN? {
        promises := promises + [Pending];
        openCloses, dispatching := openCloses + 1, true;
        return true;
      }
      if readyState.CLOSED? {
        ended := true;
        SettleCurrent(Rejected(ConnectionClosed));
        return false;
      }
      var tried := attempts;
      attempts := attempts + 1;
      if tried == maxRetries {
        readyState := CLOSED;
        SettleCurrent(Rejected(MaxRetriesExceeded));
        return false;
      }
      timers := timers + 1;
      return false;
    }

    /** The rest of an open socket's `onclose`: it no longer looks at the state. */
    method AfterDispatch()
      requires dispatching
      modifies this
      ensures View() == Apply(old(View()), DispatchEnds)
    {
      timers := timers + 1;
      readyState := CONNECTING;
      dispatching := false;
    }

    /** The assignments of `close`. */
    method MarkClosed()
      requires promises != []
      modifies this`readyState, this`asked
      ensures View() == Apply(old(View()), UserCloses)
    {
      if readyState.OPEN? {
        asked := asked + [|promises| - 1];
      }
      readyState := CLOSED;
    }

    /**
     `onclose`, with listeners that may call `close()`. Either one reconnect timer is pending and sends can wait, or all is
     over and nobody is left waiting; the close of an open socket always ends in the former, whatever listeners do, and then
     their `close()` waits for the next socket.
     */
    method HandleClose(ws: nat, listenerCloses: bool)
      requires Valid() && Enabled(View(), SocketCloses(ws))
      modifies this
      ensures Valid() && View() == WholeClose(old(View()), ws, listenerCloses) && Settled(View())
      ensures old(readyState).OPEN? ==> readyState.CONNECTING? && (listenerCloses ==> |promises| - 1 in asked)
      ensures ClosesAsStated(old(View()), View())
    {
      ghost var s := View();
      WholeCloseKeepsInv(s, ws, listenerCloses);
      WholeCloseSettles(s, ws, listenerCloses);
      WholeCloseStated(s, ws, listenerCloses);
      if readyState.OPEN? {
        WholeCloseAsks(s, ws);
      }
      CloseAndTell(ws, listenerCloses);
    }

    /** The callback from beginning to end. */
    method CloseAndTell(ws: nat, listenerCloses: bool)
      requires Enabled(View(), SocketCloses(ws))
      modifies this
      ensures View() == WholeClose(old(View()), ws, listenerCloses)
    {
      var goesOn := CloseCallback(ws);
      if goesOn {
        if listenerCloses {
          MarkClosed();
        }
        AfterDispatch();
      }
    }

    /** `close`: the state is CLOSED at once, and stays so exactly if nothing can open a socket any more. */
    method Close()
      requires Valid()
      modifies this`readyState, this`asked
      ensures Valid() && View() == Apply(old(View()), UserCloses)
      ensures StaysClosed(View()) <==> AtRest(View())
      ensures asked == old(asked) + if old(readyState).OPEN? then [|promises| - 1] else []
      ensures old(readyState).OPEN? && !dispatching ==> Current(View()) == Resolved(|sockets| - 1)
    {
      EventKeepsInv(View(), UserCloses);
      StaysClosedExactly(Apply(View(), UserCloses));
      MarkClosed();
    }
  }
}
