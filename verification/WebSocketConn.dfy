/**
 js/src/Exchange/PromiseExchange.ts and js/src/createWebSocketConn.ts: reads are promises handed out in order, parsed
 messages settle them in the order they are given, and the terminal close rejects those still waiting. Promise triplets
 are numbered in the order the exchange makes them.
 */
module WebSocketConn {
  import Exchange

  datatype Settlement<+M> = Pending | Fulfilled(message: M) | ConnectionClosed

  /** What `read` returned: a promise, or at once the ConnectionClosed error. */
  datatype ReadResult = Promise(k: nat) | Refused

  /** `given` and `issued` are histories: the messages given, and what the calls of `read` returned. */
  datatype State<M> = State(
    exchange: Exchange.State<nat>, settled: seq<Settlement<M>>, closed: bool, given: seq<M>, issued: seq<ReadResult>)

  datatype Event<M> = Read | Give(message: M) | CloseEvent(terminal: bool)

  function Init<M>(): State<M> {
    State(Exchange.Init(), [], false, [], [])
  }

  /** The factory: a new triplet per call. */
  function Triplet(n: nat): nat {
    n
  }

  /** A call on the exchange; a new triplet starts pending. */
  function Meet<M>(s: State<M>, take: bool): State<M> {
    var exchange := Exchange.After(s.exchange, take, Triplet);
    s.(exchange := exchange,
       settled := if exchange.made > s.exchange.made then s.settled + [Pending] else s.settled)
  }

  function Settle<M>(settled: seq<Settlement<M>>, k: nat, how: Settlement<M>): (r: seq<Settlement<M>>)
    ensures |r| == |settled|
  {
    if k < |settled| && settled[k].Pending? then settled[k := how] else settled
  }

  function RejectAll<M>(settled: seq<Settlement<M>>, ks: seq<nat>): (r: seq<Settlement<M>>)
    ensures |r| == |settled|
    ensures forall k | 0 <= k < |settled| ::
              r[k] == if k in ks && settled[k].Pending? then ConnectionClosed else settled[k]
  {
    if ks == [] then settled
    else
      assert ks == ks[..|ks| - 1] + [ks[|ks| - 1]];
      Settle(RejectAll(settled, ks[..|ks| - 1]), ks[|ks| - 1], ConnectionClosed)
  }

  function Apply<M>(s: State<M>, e: Event<M>): State<M> {
    match e
    case Read =>
      if s.closed then s.(issued := s.issued + [Refused])
      else Meet(s, true).(issued := s.issued + [Promise(Exchange.Met(s.exchange, true, Triplet))])
    case Give(m) =>
      var s1 := Meet(s, false);
      s1.(settled := Settle(s1.settled, Exchange.Met(s.exchange, false, Triplet), Fulfilled(m)),
          given := s.given + [m])
    case CloseEvent(terminal) =>
      if terminal then s.(closed := true, settled := RejectAll(s.settled, Exchange.Inspect(s.exchange, true))) else s
  }

  function Run<M>(s: State<M>, events: seq<Event<M>>): State<M> {
    if events == [] then s else Apply(Run(s, events[..|events| - 1]), events[|events| - 1])
  }

  // ---------------------------------------------------------------- what every event keeps

  /** `takes` reads got a promise: read number i promise number i, and later reads none. */
  predicate IssuedOk<M>(s: State<M>, takes: nat) {
    && takes <= |s.issued| && (!s.closed ==> takes == |s.issued|)
    && forall i | 0 <= i < |s.issued| :: s.issued[i] == if i < takes then Promise(i) else Refused
  }

  predicate SettledOk<M(==)>(s: State<M>, takes: nat) {
    && |s.settled| == s.exchange.made
    && forall k | 0 <= k < |s.settled| ::
         match s.settled[k]
         case Pending => |s.given| <= k && !s.closed
         case Fulfilled(m) => k < |s.given| && m == s.given[k]
         case ConnectionClosed => s.closed && k < takes
  }

  ghost predicate Inv<M>(s: State<M>, takes: nat) {
    Exchange.Balanced(s.exchange, Triplet, takes, |s.given|) && IssuedOk(s, takes) && SettledOk(s, takes)
  }

  function TakesAfter<M>(s: State<M>, e: Event<M>, takes: nat): nat {
    if e.Read? && !s.closed then takes + 1 else takes
  }

  /** Settled promises keep what they hold. */
  predicate OnlySettles<M(==)>(s: State<M>, s': State<M>) {
    && |s.settled| <= |s'.settled|
    && forall k | 0 <= k < |s.settled| && !s.settled[k].Pending? :: s'.settled[k] == s.settled[k]
  }

  lemma ReadKeepsInv<M>(s: State<M>, takes: nat)
    requires Inv(s, takes)
    ensures Inv(Apply(s, Read), TakesAfter(s, Read, takes)) && OnlySettles(s, Apply(s, Read))
  {
    Exchange.MeetingKeepsBalance(s.exchange, Triplet, takes, |s.given|);
  }

  lemma GiveKeepsInv<M>(s: State<M>, m: M, takes: nat)
    requires Inv(s, takes)
    ensures Inv(Apply(s, Give(m)), takes) && OnlySettles(s, Apply(s, Give(m)))
  {
    Exchange.MeetingKeepsBalance(s.exchange, Triplet, takes, |s.given|);
    GiveKeepsSettled(s, m, takes);
  }

  lemma GiveKeepsSettled<M>(s: State<M>, m: M, takes: nat)
    requires Inv(s, takes)
    ensures SettledOk(Apply(s, Give(m)), takes)
  {
    var s', n := Apply(s, Give(m)), |s.given|;
    Exchange.MeetingKeepsBalance(s.exchange, Triplet, takes, n);
    assert s'.given[n] == m && forall k | 0 <= k < n :: s'.given[k] == s.given[k];
    forall k | 0 <= k < |s'.settled| && k != n
      ensures k < |s.settled| && s'.settled[k] == s.settled[k]
    {
    }
  }

  lemma WaitingExactly(exchange: Exchange.State<nat>, takes: nat, gives: nat, k: nat)
    requires Exchange.Balanced(exchange, Triplet, takes, gives)
    ensures k in Exchange.Inspect(exchange, true) <==> gives <= k < takes
  {
    var waiting := Exchange.Inspect(exchange, true);
    Exchange.MeetingKeepsBalance(exchange, Triplet, takes, gives);
    if gives <= k < takes {
      assert waiting[k - gives] == k;
    }
  }

  lemma CloseKeepsInv<M>(s: State<M>, terminal: bool, takes: nat)
    requires Inv(s, takes)
    ensures Inv(Apply(s, CloseEvent(terminal)), takes) && OnlySettles(s, Apply(s, CloseEvent(terminal)))
  {
    if terminal {
      var s', waiting := Apply(s, CloseEvent(terminal)), Exchange.Inspect(s.exchange, true);
      assert s'.settled == RejectAll(s.settled, waiting);
      forall k: nat | k < |s.settled| ensures k in waiting <==> |s.given| <= k < takes {
        WaitingExactly(s.exchange, takes, |s.given|, k);
      }
    }
  }

  lemma EventKeepsInv<M>(s: State<M>, e: Event<M>, takes: nat)
    requires Inv(s, takes)
    ensures Inv(Apply(s, e), TakesAfter(s, e, takes)) && OnlySettles(s, Apply(s, e))
  {
    match e {
      case Read => ReadKeepsInv(s, takes);
      case Give(m) => GiveKeepsInv(s, m, takes);
      case CloseEvent(terminal) => CloseKeepsInv(s, terminal, takes);
    }
  }

  lemma {:induction false} RunKeepsInv<M>(events: seq<Event<M>>) returns (takes: nat)
    ensures Inv(Run(Init(), events), takes)
  {
    if events == [] {
      takes := 0;
    } else {
      var before := events[..|events| - 1];
      takes := RunKeepsInv(before);
      EventKeepsInv(Run(Init(), before), events[|events| - 1], takes);
      takes := TakesAfter(Run(Init(), before), events[|events| - 1], takes);
    }
  }

  // ---------------------------------------------------------------- what every run guarantees

  /** Once closed, always closed, and reads that come later get no promise. */
  lemma {:induction false} ClosedRefuses<M>(events: seq<Event<M>>, n: nat, i: nat)
    requires n <= |events| && Run(Init<M>(), events[..n]).closed
    requires |Run(Init<M>(), events[..n]).issued| <= i < |Run(Init<M>(), events).issued|
    ensures Run(Init<M>(), events).closed && Run(Init<M>(), events).issued[i].Refused?
    decreases |events|
  {
    assert events[..|events|] == events;
    if n < |events| {
      var before := events[..|events| - 1];
      assert before[..n] == events[..n];
      StaysClosed(before, n);
      if i < |Run(Init<M>(), before).issued| {
        ClosedRefuses(before, n, i);
      }
    }
  }

  lemma {:induction false} StaysClosed<M>(events: seq<Event<M>>, n: nat)
    requires n <= |events| && Run(Init<M>(), events[..n]).closed
    ensures Run(Init<M>(), events).closed
    decreases |events|
  {
    if n == |events| {
      assert events[..n] == events;
    } else {
      assert events[..|events| - 1][..n] == events[..n];
      StaysClosed(events[..|events| - 1], n);
    }
  }

  /** The messages a run gives, in order. */
  function Messages<M>(events: seq<Event<M>>): seq<M> {
    if events == [] then []
    else Messages(events[..|events| - 1])
         + if events[|events| - 1].Give? then [events[|events| - 1].message] else []
  }

  function Reads<M>(events: seq<Event<M>>): nat {
    if events == [] then 0
    else Reads(events[..|events| - 1]) + if events[|events| - 1].Read? then 1 else 0
  }

  /** The histories are those of the run: only a close that finds the socket CLOSED closes, and nothing given is lost. */
  lemma {:induction false} HistoryExactly<M>(events: seq<Event<M>>)
    ensures Run(Init(), events).closed <==> CloseEvent(true) in events
    ensures Run(Init(), events).given == Messages(events) && |Run(Init<M>(), events).issued| == Reads(events)
  {
    if events != [] {
      var before, e := events[..|events| - 1], events[|events| - 1];
      HistoryExactly(before);
      assert events == before + [e];
    }
  }

  /** Read number `i` of the run came after the terminal close. */
  predicate CameLate<M>(events: seq<Event<M>>, i: nat) {
    exists n :: 0 <= n <= |events| && Run(Init<M>(), events[..n]).closed && |Run(Init<M>(), events[..n]).issued| <= i
  }

  /**
   The k-th read that got a promise settles with the k-th given message or with ConnectionClosed; after the terminal
   close none is pending, and every later read is refused.
   */
  lemma ReadsSettle<M>(events: seq<Event<M>>, i: nat)
    requires i < |Run(Init<M>(), events).issued|
    ensures CameLate(events, i) ==> Run(Init<M>(), events).issued[i].Refused?
    ensures var s := Run(Init<M>(), events);
            match s.issued[i]
            case Refused => s.closed && forall j | i <= j < |s.issued| :: s.issued[j].Refused?
            case Promise(k) =>
              && k == i && k < |s.settled|
              && (s.settled[k].Pending? ==> !s.closed && |s.given| <= k)
              && (s.settled[k].Fulfilled? ==> k < |s.given| && s.settled[k].message == s.given[k])
              && (s.settled[k].ConnectionClosed? ==> s.closed)
  {
    var takes := RunKeepsInv(events);
    if CameLate(events, i) {
      var n :| 0 <= n <= |events| && Run(Init<M>(), events[..n]).closed && |Run(Init<M>(), events[..n]).issued| <= i;
      ClosedRefuses(events, n, i);
    }
  }

  /** Before any terminal close a read is fulfilled as soon as its message is there. */
  lemma OpenReadsFulfilled<M>(events: seq<Event<M>>, k: nat)
    requires var s := Run(Init<M>(), events); k < |s.issued| && k < |s.given| && !s.closed
    ensures var s := Run(Init<M>(), events); k < |s.settled| && s.settled[k] == Fulfilled(s.given[k])
  {
    var takes := RunKeepsInv(events);
  }

  /** A promise never settles twice: what it holds at one point of a run it holds ever after. */
  lemma {:induction false} SettledForGood<M>(events: seq<Event<M>>, n: nat, k: nat)
    requires n <= |events|
    requires k < |Run(Init<M>(), events[..n]).settled| && !Run(Init<M>(), events[..n]).settled[k].Pending?
    ensures k < |Run(Init<M>(), events).settled|
    ensures Run(Init<M>(), events).settled[k] == Run(Init<M>(), events[..n]).settled[k]
    decreases |events|
  {
    if n == |events| {
      assert events[..n] == events;
    } else {
      var before := events[..|events| - 1];
      assert before[..n] == events[..n];
      SettledForGood(before, n, k);
      var takes := RunKeepsInv(before);
      EventKeepsInv(Run(Init(), before), events[|events| - 1], takes);
    }
  }

  // ---------------------------------------------------------------- the closures themselves

  /** What a read leaves for its caller: a refusal, or a promise that holds the message if it is there already. */
  lemma ReadGives<M>(s: State<M>, takes: nat)
    requires Inv(s, takes)
    ensures var s', k := Apply(s, Read), |s.issued|;
            && s'.issued == s.issued + [if s.closed then Refused else Promise(k)]
            && (!s.closed ==> k < |s'.settled|
                              && s'.settled[k] == if k < |s.given| then Fulfilled(s.given[k]) else Pending)
  {
    ReadKeepsInv(s, takes);
    Exchange.MeetingKeepsBalance(s.exchange, Triplet, takes, |s.given|);
  }

  /** What a message does: it settles the promise of its number, unless that was rejected, and no other. */
  lemma GiveGives<M>(s: State<M>, m: M, takes: nat)
    requires Inv(s, takes)
    ensures var s', k := Apply(s, Give(m)), |s.given|;
            && k < |s'.settled|
            && s'.settled[k] == (if s.closed && k < takes then ConnectionClosed else Fulfilled(m))
            && forall i | 0 <= i < |s.settled| && i != k :: s'.settled[i] == s.settled[i]
  {
    GiveKeepsInv(s, m, takes);
    Exchange.MeetingKeepsBalance(s.exchange, Triplet, takes, |s.given|);
  }

  /** What a close does: one that finds the socket CLOSED rejects whatever is pending, any other nothing. */
  lemma CloseGives<M>(s: State<M>, terminal: bool, takes: nat)
    requires Inv(s, takes)
    ensures var s' := Apply(s, CloseEvent(terminal));
            && s'.closed == (s.closed || terminal) && s'.given == s.given && s'.issued == s.issued
            && |s'.settled| == |s.settled|
            && forall k | 0 <= k < |s.settled| ::
                 s'.settled[k] == if terminal && s.settled[k].Pending? then ConnectionClosed else s.settled[k]
  {
    CloseKeepsInv(s, terminal, takes);
  }

  class Conn<M> {
    const exchange: Exchange.Shared<nat>
    var settled: seq<Settlement<M>>
    var closed: bool
    ghost var given: seq<M>
    ghost var issued: seq<ReadResult>

    ghost predicate Valid() reads this, exchange {
      && exchange.factory == Triplet && exchange.gives == |given|
      && exchange.Valid() && Inv(View(), exchange.takes)
    }

    ghost function View(): State<M> reads this, exchange {
      State(exchange.View(), settled, closed, given, issued)
    }

    constructor ()
      ensures Valid() && View() == Init() && fresh(exchange)
    {
      exchange := new Exchange.Shared(Triplet);
      settled, closed, given, issued := [], false, [], [];
    }

    /** `exchange.take()` or `exchange.give()`. */
    method MeetOther(take: bool) returns (k: nat)
      requires exchange.Valid() && exchange.factory == Triplet && |settled| == exchange.made
      modifies this`settled, exchange
      ensures exchange.Valid() && View() == Meet(old(View()), take)
      ensures k == (if take then old(exchange.takes) else old(exchange.gives))
      ensures k == Exchange.Met(old(exchange.View()), take, Triplet)
      ensures exchange.takes == old(exchange.takes) + (if take then 1 else 0)
      ensures exchange.gives == old(exchange.gives) + if take then 0 else 1
    {
      Exchange.MeetingKeepsBalance(exchange.View(), Triplet, exchange.takes, exchange.gives);
      k := exchange.Meet(take);
      if exchange.made > |settled| {
        settled := settled + [Pending];
      }
    }

    /** `read`: refused once closed; otherwise the promise of its number, fulfilled if its message was given already. */
    method ReadNext() returns (r: ReadResult)
      requires Valid()
      modifies this, exchange
      ensures Valid() && View() == Apply(old(View()), Read) && issued == old(issued) + [r]
      ensures closed == old(closed) && given == old(given)
      ensures if closed then r == Refused else r == Promise(old(|issued|))
      ensures r.Promise? ==> r.k < |settled| && settled[r.k] == if r.k < |given| then Fulfilled(given[r.k]) else Pending
    {
      ReadKeepsInv(View(), exchange.takes);
      ReadGives(View(), exchange.takes);
      if closed {
        r := Refused;
      } else {
        var k := MeetOther(true);
        r := Promise(k);
      }
      issued := issued + [r];
    }

    /** The message listener, once the blob is parsed: the read of its number gets the message, unless it was rejected. */
    method OnMessage(m: M)
      requires Valid()
      modifies this, exchange
      ensures Valid() && View() == Apply(old(View()), Give(m)) && given == old(given) + [m]
      ensures closed == old(closed) && issued == old(issued)
      ensures var k := old(|given|);
              && k < |settled| && settled[k] == (if closed && k < exchange.takes then ConnectionClosed else Fulfilled(m))
              && forall i | 0 <= i < old(|settled|) && i != k :: settled[i] == old(settled)[i]
    {
      GiveKeepsInv(View(), m, exchange.takes);
      GiveGives(View(), m, exchange.takes);
      var k := MeetOther(false);
      settled := Settle(settled, k, Fulfilled(m));
      given := given + [m];
    }

    /** The loop of the close listener over the promises that wait. */
    method RejectWaiting(waiting: seq<nat>)
      modifies this`settled
      ensures settled == RejectAll(old(settled), waiting)
    {
      for i := 0 to |waiting|
        invariant settled == RejectAll(old(settled), waiting[..i])
      {
        assert waiting[..i + 1][..i] == waiting[..i];
        settled := Settle(settled, waiting[i], ConnectionClosed);
      }
      assert waiting[..|waiting|] == waiting;
    }

    /** The close listener; `terminal` is whether the socket reports CLOSED. Afterwards no read is left waiting. */
    method OnClose(terminal: bool)
      requires Valid()
      modifies this
      ensures Valid() && View() == Apply(old(View()), CloseEvent(terminal))
      ensures closed == (old(closed) || terminal) && given == old(given) && issued == old(issued)
      ensures |settled| == old(|settled|)
      ensures forall k | 0 <= k < |settled| ::
                settled[k] == if terminal && old(settled)[k].Pending? then ConnectionClosed else old(settled)[k]
    {
      CloseKeepsInv(View(), terminal, exchange.takes);
      CloseGives(View(), terminal, exchange.takes);
      Exchange.MeetingKeepsBalance(exchange.View(), Triplet, exchange.takes, exchange.gives);
      if terminal {
        closed := true;
        var waiting := exchange.Unmatched(true);
        RejectWaiting(waiting);
      }
    }
  }
}
