/**
 js/src/RpcClient/RpcReactor.ts: the JavaScript client. `calls` is a plain object, so looking up an ID that nobody
 registered finds what every object inherits.
 */
module RpcReactor {
  import opened Basics
  import opened Bytes

  /** The property names every object inherits; each leads to something without a usable `resolve`. */
  const INHERITED: set<bytes> := {
    "constructor", "hasOwnProperty", "isPrototypeOf", "propertyIsEnumerable", "toLocaleString", "toString", "valueOf",
    "__proto__", "__defineGetter__", "__defineSetter__", "__lookupGetter__", "__lookupSetter__" }

  datatype Settlement = Pending | Resolved(id: bytes, content: bytes)

  /** Messages as the loop tells them apart: with an ID, with a class only, or with neither. */
  datatype Incoming = WithId(id: bytes, content: bytes) | EventOnly(content: bytes) | Neither

  datatype Loop = Reading | Dispatching | Stopped

  /**
   Call k registered under the ID with number `numbers[k]`, and waits on `promises[k]`. The rest is history: the calls
   in the order their promises were resolved, the messages in the order they were read, how many had been read when
   each call registered, and how many of the events read have been dispatched without error.
   */
  datatype State = State(
    session: bytes, calls: map<bytes, nat>, numbers: seq<nat>, promises: seq<Settlement>, loop: Loop,
    resolutions: seq<nat>, seen: seq<Incoming>, since: seq<nat>, dispatched: nat)

  /** The counter is shared by all calls and only grows, so that a number is used once. */
  datatype Step = Call(number: nat) | Deliver(m: Incoming) | DispatchSettles(ok: bool) | ReadFails

  function Id(session: bytes, number: nat): bytes {
    session + "." + Decimal(number)
  }

  function Init(session: bytes): State {
    State(session, map[], [], [], Reading, [], [], [], 0)
  }

  predicate Enabled(s: State, step: Step) {
    match step
    case Call(number) => number !in s.numbers
    case Deliver(_) => s.loop.Reading?
    case DispatchSettles(_) => s.loop.Dispatching?
    case ReadFails => s.loop.Reading?
  }

  /** What the loop does with a message it has read. */
  function OnMessage(s: State, m: Incoming): State {
    match m
    case WithId(id, content) =>
      if id in s.calls && s.calls[id] < |s.promises| then
        var k := s.calls[id];
        s.(calls := s.calls - {id}, promises := s.promises[k := Resolved(id, content)], resolutions := s.resolutions + [k])
      else if id in INHERITED then s.(loop := Stopped)
      else s
    case EventOnly(_) => s.(loop := Dispatching)
    case Neither => s
  }

  function Apply(s: State, step: Step): State
    requires Enabled(s, step)
  {
    match step
    case Call(number) =>
      s.(calls := s.calls[Id(s.session, number) := |s.promises|], numbers := s.numbers + [number],
         promises := s.promises + [Pending], since := s.since + [|s.seen|])
    case Deliver(m) => OnMessage(s, m).(seen := s.seen + [m])
    case DispatchSettles(ok) =>
      if ok then s.(loop := Reading, dispatched := s.dispatched + 1) else s.(loop := Stopped)
    case ReadFails => s.(loop := Stopped)
  }

  ghost predicate Runs(s: State, steps: seq<Step>, s': State)
    decreases |steps|
  {
    if steps == [] then s' == s
    else Enabled(s, steps[0]) && Runs(Apply(s, steps[0]), steps[1..], s')
  }

  lemma IdInjective(session: bytes, a: nat, b: nat)
    ensures Id(session, a) == Id(session, b) ==> a == b
  {
    if Id(session, a) == Id(session, b) {
      DecimalInjective(session + ".", a, b);
    }
  }

  // ---------------------------------------------------------------- what every step keeps

  /** What a promise should be by now: settled by the first message with the ID, if there was one. */
  function FirstAnswer(seen: seq<Incoming>, id: bytes): Settlement {
    if seen == [] then Pending
    else if seen[0].WithId? && seen[0].id == id then Resolved(id, seen[0].content)
    else FirstAnswer(seen[1..], id)
  }

  predicate Has(seen: seq<Incoming>, i: nat, id: bytes) {
    i < |seen| && seen[i].WithId? && seen[i].id == id
  }

  /** The first message with the ID, its content and all, or none. */
  lemma {:induction false} FirstAnswerMeaning(seen: seq<Incoming>, id: bytes) returns (i: nat)
    ensures i <= |seen| && forall j | 0 <= j < i :: !Has(seen, j, id)
    ensures if i < |seen| then Has(seen, i, id) && FirstAnswer(seen, id) == Resolved(id, seen[i].content)
            else FirstAnswer(seen, id) == Pending
  {
    if seen == [] || Has(seen, 0, id) {
      i := 0;
    } else {
      var more := seen[1..];
      var k := FirstAnswerMeaning(more, id);
      i := k + 1;
      forall j | 0 <= j < i ensures !Has(seen, j, id) {
        assert j > 0 ==> Has(seen, j, id) == Has(more, j - 1, id);
      }
    }
  }

  lemma {:induction false} FirstAnswerAppend(seen: seq<Incoming>, m: Incoming, id: bytes)
    ensures FirstAnswer(seen + [m], id)
         == if FirstAnswer(seen, id).Pending? then FirstAnswer([m], id) else FirstAnswer(seen, id)
  {
    if seen == [] {
      assert seen + [m] == [m];
    } else {
      assert (seen + [m])[1..] == seen[1..] + [m];
      FirstAnswerAppend(seen[1..], m, id);
    }
  }

  function EventsIn(seen: seq<Incoming>): nat {
    if seen == [] then 0
    else EventsIn(seen[..|seen| - 1]) + if seen[|seen| - 1].EventOnly? then 1 else 0
  }

  /** An entry exists exactly while its call is unanswered, and the first message with the call's ID answers it. */
  predicate CallOk(s: State, k: nat)
    requires k < |s.numbers| && k < |s.promises| && k < |s.since| && s.since[k] <= |s.seen|
  {
    var id := Id(s.session, s.numbers[k]);
    && s.promises[k] == FirstAnswer(s.seen[s.since[k]..], id)
    && if s.promises[k].Pending? then id in s.calls && s.calls[id] == k && k !in s.resolutions
       else id !in s.calls && k in s.resolutions
  }

  /** While the loop reads, every event has been dispatched; while it dispatches, all but the last message have. */
  predicate LoopOk(s: State) {
    match s.loop
    case Reading => s.dispatched == EventsIn(s.seen)
    case Dispatching => s.seen != [] && s.seen[|s.seen| - 1].EventOnly? && s.dispatched + 1 == EventsIn(s.seen)
    case Stopped => s.dispatched <= EventsIn(s.seen) <= s.dispatched + 1
  }

  predicate Inv(s: State) {
    && |s.numbers| == |s.promises| == |s.since|
    && (forall k | 0 <= k < |s.since| :: s.since[k] <= |s.seen|)
    && (forall i, j | 0 <= i < j < |s.numbers| :: s.numbers[i] != s.numbers[j])
    && (forall id | id in s.calls :: s.calls[id] < |s.promises| && id == Id(s.session, s.numbers[s.calls[id]]))
    && (forall k | 0 <= k < |s.promises| :: CallOk(s, k))
    && (forall i | 0 <= i < |s.resolutions| :: s.resolutions[i] < |s.promises|)
    && (forall i, j | 0 <= i < j < |s.resolutions| :: s.resolutions[i] != s.resolutions[j])
    && LoopOk(s)
  }

  lemma CallKeepsInv(s: State, number: nat)
    requires Inv(s) && number !in s.numbers
    ensures Inv(Apply(s, Call(number)))
  {
    var s' := Apply(s, Call(number));
    forall k | 0 <= k < |s'.promises| ensures CallOk(s', k) {
      if k < |s.promises| {
        assert CallOk(s, k);
        IdInjective(s.session, s.numbers[k], number);
      }
    }
    forall id | id in s'.calls ensures s'.calls[id] < |s'.promises| && id == Id(s'.session, s'.numbers[s'.calls[id]]) {
      if id in s.calls {
        assert s.calls[id] < |s.promises|;
      }
    }
  }

  /** An entry leads to the one call with its ID. */
  lemma EntryIsOwn(s: State, id: bytes, k: nat)
    requires Inv(s) && id in s.calls && k < |s.promises|
    ensures s.calls[id] == k <==> Id(s.session, s.numbers[k]) == id
    ensures CallOk(s, s.calls[id]) && s.promises[s.calls[id]].Pending?
  {
    var at := s.calls[id];
    assert CallOk(s, at);
    IdInjective(s.session, s.numbers[k], s.numbers[at]);
  }

  /** What is left of a promise's history when another message has been read. */
  lemma DeliverExtends(s: State, m: Incoming, k: nat)
    requires k < |s.since| && s.since[k] <= |s.seen| && s.loop.Reading?
    ensures Apply(s, Deliver(m)).since == s.since
    ensures Apply(s, Deliver(m)).seen[s.since[k]..] == s.seen[s.since[k]..] + [m]
  {
    assert (s.seen + [m])[s.since[k]..] == s.seen[s.since[k]..] + [m];
  }

  lemma AnswerKeepsCall(s: State, id: bytes, content: bytes, k: nat)
    requires Inv(s) && s.loop.Reading? && k < |s.promises| && id in s.calls
    ensures CallOk(Apply(s, Deliver(WithId(id, content))), k)
  {
    var m := WithId(id, content);
    var s' := Apply(s, Deliver(m));
    EntryIsOwn(s, id, k);
    assert CallOk(s, k);
    DeliverExtends(s, m, k);
    FirstAnswerAppend(s.seen[s.since[k]..], m, Id(s.session, s.numbers[k]));
    assert FirstAnswer([m], id) == Resolved(id, content);
    assert s'.resolutions[|s.resolutions|] == s.calls[id];
  }

  lemma OtherKeepsCall(s: State, m: Incoming, k: nat)
    requires Inv(s) && s.loop.Reading? && k < |s.promises| && !(m.WithId? && m.id in s.calls)
    ensures CallOk(Apply(s, Deliver(m)), k)
  {
    assert CallOk(s, k);
    DeliverExtends(s, m, k);
    FirstAnswerAppend(s.seen[s.since[k]..], m, Id(s.session, s.numbers[k]));
  }

  lemma DeliverKeepsLoop(s: State, m: Incoming)
    requires LoopOk(s) && s.loop.Reading?
    ensures LoopOk(Apply(s, Deliver(m)))
  {
    assert (s.seen + [m])[..|s.seen|] == s.seen;
  }

  lemma DeliverKeepsInv(s: State, m: Incoming)
    requires Inv(s) && s.loop.Reading?
    ensures Inv(Apply(s, Deliver(m)))
  {
    var s' := Apply(s, Deliver(m));
    DeliverKeepsLoop(s, m);
    forall k | 0 <= k < |s'.promises| ensures CallOk(s', k) {
      if m.WithId? && m.id in s.calls {
        AnswerKeepsCall(s, m.id, m.content, k);
      } else {
        OtherKeepsCall(s, m, k);
      }
    }
    if m.WithId? && m.id in s.calls {
      EntryIsOwn(s, m.id, s.calls[m.id]);
    }
    forall id | id in s'.calls ensures s'.calls[id] < |s'.promises| && id == Id(s'.session, s'.numbers[s'.calls[id]]) {
      assert id in s.calls;
    }
  }

  lemma QuietStepKeepsInv(s: State, s': State)
    requires Inv(s) && LoopOk(s') && s'.(loop := s.loop, dispatched := s.dispatched) == s
    ensures Inv(s')
  {
    forall k | 0 <= k < |s'.promises| ensures CallOk(s', k) {
      assert CallOk(s, k);
    }
  }

  lemma StepKeepsInv(s: State, step: Step)
    requires Inv(s) && Enabled(s, step)
    ensures Inv(Apply(s, step))
  {
    match step {
      case Call(number) => CallKeepsInv(s, number);
      case Deliver(m) => DeliverKeepsInv(s, m);
      case _ => QuietStepKeepsInv(s, Apply(s, step));
    }
  }

  lemma {:induction false} RunsKeepInv(s: State, steps: seq<Step>, s': State)
    requires Inv(s) && Runs(s, steps, s')
    ensures Inv(s') && s'.session == s.session
    decreases |steps|
  {
    if steps != [] {
      StepKeepsInv(s, steps[0]);
      RunsKeepInv(Apply(s, steps[0]), steps[1..], s');
    }
  }

  // ---------------------------------------------------------------- what every run guarantees

  /**
   Each call is resolved at most once and registered exactly until then. What it gets is the first message with its own
   ID read since it registered, and it waits exactly while there is none.
   */
  lemma EachCallOnce(session: bytes, steps: seq<Step>, s: State, k: nat)
    requires Runs(Init(session), steps, s) && k < |s.promises|
    ensures k < |s.numbers| && k < |s.since| && s.since[k] <= |s.seen|
    ensures s.promises[k] == FirstAnswer(s.seen[s.since[k]..], Id(session, s.numbers[k]))
    ensures multiset(s.resolutions)[k] == if s.promises[k].Pending? then 0 else 1
    ensures s.promises[k].Pending? <==> Id(session, s.numbers[k]) in s.calls
  {
    RunsKeepInv(Init(session), steps, s);
    assert CallOk(s, k);
    DistinctCount(s.resolutions, k);
  }

  function Delivered(steps: seq<Step>): seq<Incoming> {
    if steps == [] then [] else (if steps[0].Deliver? then [steps[0].m] else []) + Delivered(steps[1..])
  }

  function Numbers(steps: seq<Step>): seq<nat> {
    if steps == [] then [] else (if steps[0].Call? then [steps[0].number] else []) + Numbers(steps[1..])
  }

  /** For each call of a run, how many messages are read before it, when there were `read` to begin with. */
  function ReadBefore(steps: seq<Step>, read: nat): seq<nat> {
    if steps == [] then []
    else (if steps[0].Call? then [read] else []) + ReadBefore(steps[1..], read + if steps[0].Deliver? then 1 else 0)
  }

  lemma StepHistory(s: State, step: Step)
    requires Enabled(s, step)
    ensures var s' := Apply(s, step);
            && s'.seen == s.seen + (if step.Deliver? then [step.m] else [])
            && s'.numbers == s.numbers + (if step.Call? then [step.number] else [])
            && s'.since == s.since + (if step.Call? then [|s.seen|] else [])
  {
  }

  lemma {:induction false} SeenFrom(s: State, steps: seq<Step>, s': State)
    requires Runs(s, steps, s')
    ensures s'.seen == s.seen + Delivered(steps)
    decreases |steps|
  {
    if steps != [] {
      StepHistory(s, steps[0]);
      SeenFrom(Apply(s, steps[0]), steps[1..], s');
    }
  }

  lemma {:induction false} NumbersFrom(s: State, steps: seq<Step>, s': State)
    requires Runs(s, steps, s')
    ensures s'.numbers == s.numbers + Numbers(steps)
    decreases |steps|
  {
    if steps != [] {
      StepHistory(s, steps[0]);
      NumbersFrom(Apply(s, steps[0]), steps[1..], s');
    }
  }

  lemma {:induction false} SinceFrom(s: State, steps: seq<Step>, s': State)
    requires Runs(s, steps, s')
    ensures s'.since == s.since + ReadBefore(steps, |s.seen|)
    decreases |steps|
  {
    if steps != [] {
      StepHistory(s, steps[0]);
      SinceFrom(Apply(s, steps[0]), steps[1..], s');
    }
  }

  /** The histories are those of the run: all messages that were read, and all calls with what was read before them. */
  lemma HistoryExactly(session: bytes, steps: seq<Step>, s: State)
    requires Runs(Init(session), steps, s)
    ensures s.seen == Delivered(steps) && s.numbers == Numbers(steps) && s.since == ReadBefore(steps, 0)
  {
    SeenFrom(Init(session), steps, s);
    NumbersFrom(Init(session), steps, s);
    SinceFrom(Init(session), steps, s);
  }

  /** The same without the function: the message that resolves a call is the first with its ID since it registered. */
  lemma AnswerIsFirst(session: bytes, steps: seq<Step>, s: State, k: nat) returns (i: nat)
    requires Runs(Init(session), steps, s) && k < |s.promises|
    ensures k < |s.numbers| && k < |s.since| && s.since[k] <= i <= |s.seen|
    ensures forall j | s.since[k] <= j < i :: !Has(s.seen, j, Id(session, s.numbers[k]))
    ensures if i < |s.seen| then Has(s.seen, i, Id(session, s.numbers[k]))
                                 && s.promises[k] == Resolved(Id(session, s.numbers[k]), s.seen[i].content)
            else s.promises[k].Pending?
  {
    EachCallOnce(session, steps, s, k);
    var id, later := Id(session, s.numbers[k]), s.seen[s.since[k]..];
    var at := FirstAnswerMeaning(later, id);
    i := s.since[k] + at;
    forall j | s.since[k] <= j < i ensures !Has(s.seen, j, id) {
      assert Has(later, j - s.since[k], id) == Has(s.seen, j, id);
    }
  }

  /** An ID is the session's number, a point and the call's number. */
  lemma IdReadsBack(session: bytes, number: nat)
    ensures session + "." <= Id(session, number)
    ensures AllDigits(Id(session, number)[|session| + 1..]) && DecimalValue(Id(session, number)[|session| + 1..]) == number
  {
    DecimalRoundTrip(number);
    assert Id(session, number)[|session| + 1..] == Decimal(number);
  }

  /** A message is read only when every event before it has been dispatched, and without error. */
  lemma EventsSettleFirst(session: bytes, steps: seq<Step>, s: State, m: Incoming)
    requires Runs(Init(session), steps, s) && Enabled(s, Deliver(m))
    ensures s.dispatched == EventsIn(s.seen)
  {
    RunsKeepInv(Init(session), steps, s);
  }

  /** No ID the client itself makes up is inherited: a session begins with a digit, and no inherited name does. */
  lemma OwnIdsAreSafe(session: bytes, number: nat)
    requires GoodSession(session)
    ensures Id(session, number) !in INHERITED
  {
    assert IsDigit(Id(session, number)[0]);
    assert forall name | name in INHERITED :: name != [] && !IsDigit(name[0]);
  }

  /** Some call waits for the ID. */
  predicate Awaited(s: State, id: bytes) {
    exists k :: 0 <= k < |s.promises| && k < |s.numbers| && s.promises[k].Pending? && Id(s.session, s.numbers[k]) == id
  }

  lemma AwaitedIsRegistered(s: State, id: bytes)
    requires Inv(s)
    ensures Awaited(s, id) <==> id in s.calls
  {
    if id in s.calls {
      EntryIsOwn(s, id, s.calls[id]);
    }
    if Awaited(s, id) {
      var k :| 0 <= k < |s.promises| && k < |s.numbers| && s.promises[k].Pending? && Id(s.session, s.numbers[k]) == id;
      assert CallOk(s, k);
    }
  }

  /**
   In every run a message with an ID changes nothing but what was read exactly if no call waits for the ID and the ID names
   nothing that every object inherits.
   */
  lemma UnknownIdExactly(session: bytes, steps: seq<Step>, s: State, id: bytes, content: bytes)
    requires Runs(Init(session), steps, s) && s.loop.Reading?
    ensures Apply(s, Deliver(WithId(id, content))) == s.(seen := s.seen + [WithId(id, content)])
       <==> !Awaited(s, id) && id !in INHERITED
  {
    RunsKeepInv(Init(session), steps, s);
    AwaitedIsRegistered(s, id);
    if id in s.calls {
      EntryIsOwn(s, id, s.calls[id]);
      assert Apply(s, Deliver(WithId(id, content))).promises[s.calls[id]].Resolved?;
    }
  }

  /** What ends the loop: a failed read, a failed dispatch, or an ID that names what every object inherits. */
  predicate Stops(step: Step) {
    || step.ReadFails? || (step.DispatchSettles? && !step.ok)
    || (step.Deliver? && step.m.WithId? && step.m.id in INHERITED)
  }

  /** A session is the decimal numeral of a random number. */
  predicate GoodSession(session: bytes) {
    session != "" && IsDigit(session[0])
  }

  /** No inherited name is ever registered, so that a message with one finds no call. */
  lemma InheritedUnregistered(s: State, id: bytes)
    requires Inv(s) && GoodSession(s.session) && id in INHERITED
    ensures id !in s.calls
  {
    if id in s.calls {
      OwnIdsAreSafe(s.session, s.numbers[s.calls[id]]);
    }
  }

  lemma StepStops(s: State, step: Step)
    requires Inv(s) && GoodSession(s.session) && Enabled(s, step)
    ensures Apply(s, step).loop.Stopped? <==> s.loop.Stopped? || Stops(step)
  {
    if step.Deliver? && step.m.WithId? && step.m.id in INHERITED {
      InheritedUnregistered(s, step.m.id);
    }
  }

  predicate AnyStops(steps: seq<Step>) {
    exists i :: 0 <= i < |steps| && Stops(steps[i])
  }

  lemma {:induction false} StoppedFrom(s: State, steps: seq<Step>, s': State)
    requires Inv(s) && GoodSession(s.session) && Runs(s, steps, s')
    ensures s'.loop.Stopped? <==> s.loop.Stopped? || AnyStops(steps)
    decreases |steps|
  {
    if steps != [] {
      var s1, more := Apply(s, steps[0]), steps[1..];
      StepKeepsInv(s, steps[0]);
      StepStops(s, steps[0]);
      StoppedFrom(s1, more, s');
      if AnyStops(steps) {
        var i :| 0 <= i < |steps| && Stops(steps[i]);
        assert i > 0 ==> Stops(more[i - 1]);
      }
      if AnyStops(more) {
        var i :| 0 <= i < |more| && Stops(more[i]);
        assert Stops(steps[i + 1]);
      }
    }
  }

  /** In every run the loop has ended exactly if a read or a dispatch failed or a message with an inherited ID was read. */
  lemma StoppedExactly(session: bytes, steps: seq<Step>, s: State)
    requires GoodSession(session) && Runs(Init(session), steps, s)
    ensures s.loop.Stopped? <==> AnyStops(steps)
  {
    StoppedFrom(Init(session), steps, s);
  }

  /** Once the loop has ended no call is ever answered: what waits then, or starts later, waits for ever. */
  lemma {:induction false} StoppedForGood(s: State, steps: seq<Step>, s': State)
    requires s.loop.Stopped? && Runs(s, steps, s')
    ensures s'.loop.Stopped? && s'.resolutions == s.resolutions && |s.promises| <= |s'.promises|
    ensures forall k | 0 <= k < |s'.promises| :: s'.promises[k] == if k < |s.promises| then s.promises[k] else Pending
    decreases |steps|
  {
    if steps != [] {
      StoppedForGood(Apply(s, steps[0]), steps[1..], s');
    }
  }

  // ---------------------------------------------------------------- the closures of createRpcReactor

  class Reactor {
    const session: bytes
    var calls: map<bytes, nat>
    var promises: seq<Settlement>
    var loop: Loop
    ghost var numbers: seq<nat>
    ghost var resolutions: seq<nat>
    ghost var seen: seq<Incoming>
    ghost var since: seq<nat>
    ghost var dispatched: nat

    ghost function View(): State reads this {
      State(session, calls, numbers, promises, loop, resolutions, seen, since, dispatched)
    }

    constructor (session: bytes)
      ensures View() == Init(session)
    {
      this.session := session;
      calls, promises, loop := map[], [], Reading;
      numbers, resolutions, seen, since, dispatched := [], [], [], [], 0;
    }

    /** `call` up to the `await`: a new triplet, registered before the request is written. */
    method StartCall(number: nat) returns (k: nat)
      requires Inv(View()) && number !in numbers
      modifies this
      ensures View() == Apply(old(View()), Call(number)) && Inv(View())
      ensures k == old(|promises|) && promises == old(promises) + [Pending] && seen == old(seen)
      ensures numbers == old(numbers) + [number] && since == old(since) + [|seen|]
    {
      CallKeepsInv(View(), number);
      k := |promises|;
      promises := promises + [Pending];
      numbers, since := numbers + [number], since + [|seen|];
      calls := calls[Id(session, number) := k];
    }

    /** One turn of the loop of `run`, up to the next `await`. */
    method OnRead(m: Incoming)
      requires Inv(View()) && loop.Reading?
      modifies this
      ensures View() == Apply(old(View()), Deliver(m)) && Inv(View())
      ensures seen == old(seen) + [m] && numbers == old(numbers) && since == old(since)
    {
      DeliverKeepsInv(View(), m);
      seen := seen + [m];
      if m.WithId? {
        if m.id in calls {
          var k := calls[m.id];
          calls := calls - {m.id};
          promises := promises[k := Resolved(m.id, m.content)];
          resolutions := resolutions + [k];
        } else if m.id in INHERITED {
          loop := Stopped;
        }
      } else if m.EventOnly? {
        loop := Dispatching;
      }
    }

    /** The dispatch of an event settles; an error ends the loop. */
    method OnDispatched(ok: bool)
      requires Inv(View()) && loop.Dispatching?
      modifies this
      ensures View() == Apply(old(View()), DispatchSettles(ok)) && Inv(View())
      ensures if ok then loop.Reading? && dispatched == old(dispatched) + 1 else loop.Stopped?
      ensures promises == old(promises) && calls == old(calls) && seen == old(seen)
    {
      StepKeepsInv(View(), DispatchSettles(ok));
      if ok {
        loop := Reading;
        dispatched := dispatched + 1;
      } else {
        loop := Stopped;
      }
    }
  }
}
