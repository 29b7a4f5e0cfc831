/**
 The RPC system again, with octet streams in place of message queues: every write appends a printed message, every read
 parses one off the front, and a write that fails may leave an initial part of its message behind. It refines RpcSystem as
 long as what is written is well-formed and nothing is written behind such a part.
 */
module RpcOverBytes {
  import opened Basics
  import opened Bytes
  import opened Headers
  import opened WireCodec
  import opened TornWrites
  import opened RpcSystem
  import C = RpcClient
  import S = RpcServer

  /** `torn`: a failed write has left part of a message. `mixed`: something was written behind such a part. */
  datatype Stream = Stream(data: bytes, torn: bool, mixed: bool) {
    function Write(p: bytes): Stream {
      Stream(data + p, torn, mixed || torn)
    }
    function Tear(p: bytes): Stream {
      if p == [] then this else Stream(data + p, true, mixed || torn)
    }
    function Advance(): Stream
      requires ReadMessage(data).Got?
    {
      Stream(ReadMessage(data).rest, torn, mixed)
    }
  }

  datatype ByteSystem = ByteSystem(core: Core, up: Stream, down: Stream)

  /**
   A step of the client or the server; a write that fails after `cut` bytes; and likewise the write of an event, which
   neither side keeps track of.
   */
  datatype ByteStep = Whole(step: Step) | Torn(step: Step, cut: nat) | TornEvent(m: Message, cut: nat)

  predicate Yields(stream: Stream, m: Message) {
    ReadMessage(stream.data).Got? && ReadMessage(stream.data).value == m
  }

  predicate Cut(m: Message, cut: nat) {
    WellFormed(m) && cut < |Print(m)|
  }

  /** The message a failing write was about, as what it would have done to the links. */
  function Attempt(core: Core, step: Step): Effect
    requires Enabled(core, step)
  {
    match step
    case OfClient(WriteFails(k)) => PushUp(Stamped(core.client, k))
    case OfServer(WriteFails(j)) =>
      if core.server.requests[j].response.Some? then PushDown(core.server.requests[j].response.value) else Nothing
    case _ => Nothing
  }

  predicate WholePossible(b: ByteSystem, step: Step) {
    Enabled(b.core, step) &&
    match EffectOf(b.core, step)
    case Nothing => true
    case PushUp(m) => WellFormed(m)
    case PushDown(m) => WellFormed(m)
    case PopUp(m) => Yields(b.up, m)
    case PopDown(m) => Yields(b.down, m)
  }

  predicate BytePossible(b: ByteSystem, s: ByteStep) {
    match s
    case Whole(step) => WholePossible(b, step)
    case Torn(step, cut) =>
      Enabled(b.core, step) && (
        match Attempt(b.core, step)
        case PushUp(m) => Cut(m, cut)
        case PushDown(m) => Cut(m, cut)
        case _ => false)
    case TornEvent(m, cut) => Cut(m, cut)
  }

  function WholeNext(b: ByteSystem, step: Step): ByteSystem
    requires WholePossible(b, step)
  {
    var core := Apply(b.core, step);
    match EffectOf(b.core, step)
    case Nothing => ByteSystem(core, b.up, b.down)
    case PushUp(m) => ByteSystem(core, b.up.Write(Print(m)), b.down)
    case PopUp(m) => ByteSystem(core, b.up.Advance(), b.down)
    case PushDown(m) => ByteSystem(core, b.up, b.down.Write(Print(m)))
    case PopDown(m) => ByteSystem(core, b.up, b.down.Advance())
  }

  function ByteNext(b: ByteSystem, s: ByteStep): ByteSystem
    requires BytePossible(b, s)
  {
    match s
    case Whole(step) => WholeNext(b, step)
    case Torn(step, cut) => (
      var core := Apply(b.core, step);
      match Attempt(b.core, step)
      case PushUp(m) => ByteSystem(core, b.up.Tear(Print(m)[..cut]), b.down)
      case PushDown(m) => ByteSystem(core, b.up, b.down.Tear(Print(m)[..cut])))
    case TornEvent(m, cut) => b.(down := b.down.Tear(Print(m)[..cut]))
  }

  const EMPTY: Stream := Stream([], false, false)

  function ByteInit(prefix: bytes): ByteSystem {
    ByteSystem(Init(prefix).core, EMPTY, EMPTY)
  }

  ghost predicate ByteRuns(b: ByteSystem, steps: seq<ByteStep>, b': ByteSystem)
    decreases |steps|
  {
    if steps == [] then b' == b
    else BytePossible(b, steps[0]) && ByteRuns(ByteNext(b, steps[0]), steps[1..], b')
  }

  /** The steps of the client and the server in a run. */
  function Plain(steps: seq<ByteStep>): seq<Step> {
    if steps == [] then []
    else if steps[0].TornEvent? then Plain(steps[1..])
    else [steps[0].step] + Plain(steps[1..])
  }

  predicate Mixed(b: ByteSystem) {
    b.up.mixed || b.down.mixed
  }

  // ---------------------------------------------------------------- the refinement

  /** What may follow the whole messages on a stream. */
  ghost predicate LeftOver(torn: bool, frag: bytes) {
    frag == [] || (torn && Fragment(frag))
  }

  /** The stream holds the printed messages still on the link, and behind them at most what a failed write left. */
  ghost predicate Carries(stream: Stream, link: Link) {
    && link.taken <= |link.history|
    && (forall i | link.taken <= i < |link.history| :: WellFormed(link.history[i]))
    && Holds(stream, PrintAll(link.history[link.taken..]))
  }

  ghost predicate Holds(stream: Stream, text: bytes) {
    !stream.mixed && text <= stream.data && LeftOver(stream.torn, stream.data[|text|..])
  }

  ghost predicate Related(b: ByteSystem, sys: System) {
    b.core == sys.core && Carries(b.up, sys.up) && Carries(b.down, sys.down)
  }

  lemma HoldsMore(stream: Stream, text: bytes, p: bytes)
    requires Holds(stream, text) && !stream.torn
    ensures Holds(stream.Write(p), text + p)
  {
    assert stream.data == text;
    assert (text + p)[|text + p|..] == [];
  }

  lemma PushCarries(stream: Stream, link: Link, m: Message)
    requires Carries(stream, link) && WellFormed(m) && !stream.Write(Print(m)).mixed
    ensures Carries(stream.Write(Print(m)), link.Push(m))
  {
    var queue := link.history[link.taken..];
    PrintAllAppend(queue, m);
    assert link.Push(m).history[link.taken..] == queue + [m];
    HoldsMore(stream, PrintAll(queue), Print(m));
  }

  lemma CutIsFragment(m: Message, cut: nat)
    requires Cut(m, cut)
    ensures Fragment(Print(m)[..cut])
  {
    var text := Print(m);
    assert text == text[..cut] + text[cut..];
    assert PartOf(text[..cut], m, text[cut..]);
  }

  lemma TearHolds(stream: Stream, text: bytes, frag: bytes)
    requires Holds(stream, text) && Fragment(frag) && !stream.Tear(frag).mixed
    ensures Holds(stream.Tear(frag), text)
  {
    if frag != [] {
      assert stream.data == text;
      assert (text + frag)[|text|..] == frag;
    }
  }

  lemma TearCarries(stream: Stream, link: Link, m: Message, cut: nat)
    requires Carries(stream, link) && Cut(m, cut) && !stream.Tear(Print(m)[..cut]).mixed
    ensures Carries(stream.Tear(Print(m)[..cut]), link)
  {
    CutIsFragment(m, cut);
    TearHolds(stream, PrintAll(link.history[link.taken..]), Print(m)[..cut]);
  }

  /** What follows the last whole message is no message. */
  lemma LeftOverUnread(stream: Stream)
    requires Holds(stream, [])
    ensures !ReadMessage(stream.data).Got?
  {
    assert stream.data[0..] == stream.data;
    if stream.data != [] {
      FragmentUnread(stream.data);
    }
  }

  lemma FirstRead(stream: Stream, m: Message, text: bytes)
    requires WellFormed(m) && Holds(stream, Print(m) + text)
    ensures ReadMessage(stream.data).Got? && ReadMessage(stream.data).value == m && Holds(stream.Advance(), text)
  {
    var frag := stream.data[|Print(m) + text|..];
    assert stream.data == Print(m) + (text + frag);
    RoundTrip(m, text + frag);
    assert (text + frag)[|text|..] == frag;
  }

  /** What the stream yields is what the link has at its front; neither has anything when the other has not. */
  lemma PopCarries(stream: Stream, link: Link, m: Message)
    requires Carries(stream, link)
    ensures Yields(stream, m) <==> link.Has(m)
    ensures Yields(stream, m) ==> Carries(stream.Advance(), link.Pop())
  {
    var queue := link.history[link.taken..];
    if queue == [] {
      LeftOverUnread(stream);
    } else {
      assert queue[0] == link.history[link.taken];
      FirstRead(stream, queue[0], PrintAll(queue[1..]));
      assert queue[1..] == link.history[link.taken + 1..];
    }
  }

  predicate WritesWellFormed(core: Core, step: Step)
    requires Enabled(core, step)
  {
    match EffectOf(core, step)
    case PushUp(m) => WellFormed(m)
    case PushDown(m) => WellFormed(m)
    case _ => true
  }

  /**
   Streams and queues allow the same steps, as long as what is written is well-formed, and stay related by them unless
   something is written behind part of a message.
   */
  lemma StepRefines(b: ByteSystem, sys: System, step: Step)
    requires Related(b, sys)
    ensures WholePossible(b, step) <==> Possible(sys, step) && WritesWellFormed(sys.core, step)
    ensures WholePossible(b, step) && !Mixed(WholeNext(b, step)) ==> Related(WholeNext(b, step), Next(sys, step))
  {
    if Enabled(b.core, step) {
      match EffectOf(b.core, step) {
        case Nothing =>
        case PushUp(m) => if WellFormed(m) && !b.up.torn { PushCarries(b.up, sys.up, m); }
        case PushDown(m) => if WellFormed(m) && !b.down.torn { PushCarries(b.down, sys.down, m); }
        case PopUp(m) => PopCarries(b.up, sys.up, m);
        case PopDown(m) => PopCarries(b.down, sys.down, m);
      }
    }
  }

  /** A failing write is a failing write over queues too, whatever part of its message it leaves. */
  lemma TornRefines(b: ByteSystem, sys: System, step: Step, cut: nat)
    requires Related(b, sys) && BytePossible(b, Torn(step, cut)) && !Mixed(ByteNext(b, Torn(step, cut)))
    ensures Possible(sys, step) && Related(ByteNext(b, Torn(step, cut)), Next(sys, step))
  {
    match Attempt(b.core, step) {
      case PushUp(m) => TearCarries(b.up, sys.up, m, cut);
      case PushDown(m) => TearCarries(b.down, sys.down, m, cut);
    }
  }

  lemma {:induction false} MixedStays(b: ByteSystem, steps: seq<ByteStep>, b': ByteSystem)
    requires ByteRuns(b, steps, b') && Mixed(b)
    ensures Mixed(b')
    decreases |steps|
  {
    if steps != [] {
      MixedStays(ByteNext(b, steps[0]), steps[1..], b');
    }
  }

  /**
   Every run over byte streams in which nothing is written behind part of a message is a run over message queues with the
   same client and server.
   */
  lemma {:induction false} RunRefines(b: ByteSystem, sys: System, steps: seq<ByteStep>, b': ByteSystem)
      returns (plain: seq<Step>, sys': System)
    requires Related(b, sys) && ByteRuns(b, steps, b') && !Mixed(b')
    ensures Runs(sys, plain, sys') && Related(b', sys') && plain == Plain(steps)
    decreases |steps|
  {
    if steps == [] {
      plain, sys' := [], sys;
    } else {
      var b1 := ByteNext(b, steps[0]);
      if Mixed(b1) {
        MixedStays(b1, steps[1..], b');
      }
      match steps[0] {
        case Whole(step) => StepRefines(b, sys, step);
        case Torn(step, cut) => TornRefines(b, sys, step, cut);
        case TornEvent(m, cut) => TearCarries(b.down, sys.down, m, cut);
      }
      var sys1 := if steps[0].TornEvent? then sys else Next(sys, steps[0].step);
      plain, sys' := RunRefines(b1, sys1, steps[1..], b');
      if !steps[0].TornEvent? {
        assert ([steps[0].step] + plain)[1..] == plain;
        plain := [steps[0].step] + plain;
      }
    }
  }

  /**
   Over byte streams too, a call that returns a message returns the one response to its own request, provided that nothing
   was written to a stream behind what a failed write left on it. Without that proviso the next request is read as another
   one (TornWrites.NextReadExactly, TornWrites.HeadersMix).
   */
  lemma AnswerIsOwnOverBytes(prefix: bytes, steps: seq<ByteStep>, b: ByteSystem, k: nat, m: Message) returns (j: nat)
    requires ByteRuns(ByteInit(prefix), steps, b) && !Mixed(b)
    requires k < |b.core.client.calls| && b.core.client.calls[k].phase == C.Returned(C.Answered(m))
    ensures AnsweredBy(b.core, k, j, m)
  {
    var plain, sys := RunRefines(ByteInit(prefix), Init(prefix), steps, b);
    j := AnswerIsOwn(prefix, plain, sys, k, m);
  }

  // ---------------------------------------------------------------- what the two sides write is well-formed

  predicate GoodValue(v: bytes) {
    LF !in v && Tight(IsSpace, v)
  }

  lemma HeaderGood(name: bytes, value: bytes)
    requires Canonical(name) == name && COLON !in name && LF !in name && Tight(IsSpace, name) && GoodValue(value)
    ensures GoodHeader(NewHeader(name, value))
  {
  }

  lemma NamesPlain()
    ensures COLON !in ID_NAME && LF !in ID_NAME && Tight(IsSpace, ID_NAME)
    ensures COLON !in ERROR_NAME && LF !in ERROR_NAME && Tight(IsSpace, ERROR_NAME)
  {
  }

  lemma IdHeaderGood(value: bytes)
    requires GoodValue(value)
    ensures GoodHeader(NewHeader(ID_NAME, value))
  {
    IdNameCanonical();
    NamesPlain();
    HeaderGood(ID_NAME, value);
  }

  lemma ErrorHeaderGood(value: bytes)
    requires GoodValue(value)
    ensures GoodHeader(NewHeader(ERROR_NAME, value))
  {
    ErrorNameCanonical();
    NamesPlain();
    HeaderGood(ERROR_NAME, value);
  }

  lemma SetKeepsFraming(m: Message, value: bytes)
    ensures Framed(m.(headers := Set(m.headers, ID_NAME, value))) == Framed(m)
  {
    ProtocolNamesCanonical();
    SetEffect(m.headers, ID_NAME, value, LENGTH_NAME);
  }

  lemma SetKeepsGoodHeaders(hs: seq<Header>, name: bytes, value: bytes)
    requires GoodHeaders(hs)
    ensures GoodHeaders(Set(hs, name, value)) <==> GoodHeader(NewHeader(name, value))
  {
    DeleteEffect(hs, name, name);
    assert Set(hs, name, value)[|Delete(hs, name)|] == NewHeader(name, value);
  }

  lemma SetKeepsWellFormed(m: Message, value: bytes)
    requires WellFormed(m)
    ensures WellFormed(m.(headers := Set(m.headers, ID_NAME, value))) <==> GoodValue(value)
  {
    SetKeepsFraming(m, value);
    SetKeepsGoodHeaders(m.headers, ID_NAME, value);
    if GoodValue(value) {
      IdHeaderGood(value);
    }
  }

  /** An ID prefix survives trimming exactly if it has no line feed and does not begin with white space. */
  predicate GoodPrefix(prefix: bytes) {
    LF !in prefix && (prefix == "" || !IsSpace(prefix[0]))
  }

  lemma IdIsGoodValue(prefix: bytes, k: nat)
    ensures GoodValue(C.Id(prefix, k)) <==> GoodPrefix(prefix)
  {
    var digits := Decimal(k);
    var id := prefix + digits;
    assert id[|id| - 1] == digits[|digits| - 1];
    assert id[0] == if prefix == "" then digits[0] else prefix[0];
    assert LF in id <==> LF in prefix || LF in digits;
  }

  /** Stamping a well-formed request keeps it well-formed exactly under a good prefix, whatever the call number. */
  lemma StampWellFormed(m: Message, prefix: bytes, k: nat)
    requires WellFormed(m)
    ensures WellFormed(C.Stamp(m, C.Id(prefix, k))) <==> GoodPrefix(prefix)
  {
    SetKeepsWellFormed(m, C.Id(prefix, k));
    IdIsGoodValue(prefix, k);
  }

  lemma {:induction false} WireValuesGood(hs: seq<Header>, name: bytes)
    requires GoodHeaders(hs)
    ensures GoodValue(Get(hs, name))
  {
    if hs != [] {
      assert GoodHeader(hs[0]);
      WireValuesGood(hs[1..], name);
    }
  }

  /** A response is well-formed when the handler built a well-formed one and its panic, if any, fits in a header. */
  lemma FinishWellFormed(request: Message, built: Message, panic: Option<bytes>)
    requires GoodHeaders(request.headers) && WellFormed(built)
    requires panic.Some? ==> GoodValue("panic: " + panic.value)
    ensures WellFormed(S.Finish(request, built, panic))
  {
    WireValuesGood(request.headers, ID_NAME);
    IdOfIsGet(request);
    var id := IdOf(request);
    SetKeepsWellFormed(built, id);
    if panic.Some? {
      var stamped, h := Set(built.headers, ID_NAME, id), NewHeader(ERROR_NAME, "panic: " + panic.value);
      ErrorHeaderGood("panic: " + panic.value);
      ProtocolNamesCanonical();
      ErrorIsNotLength();
      GetAllAppend(stamped, h, LENGTH_NAME);
      GetIsFirst(stamped, LENGTH_NAME);
      GetIsFirst(stamped + [h], LENGTH_NAME);
    }
  }

  lemma ErrorIsNotLength()
    ensures ERROR_NAME != LENGTH_NAME
  {
    assert ERROR_NAME[0] != LENGTH_NAME[0];
  }
}
