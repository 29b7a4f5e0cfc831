/**
 lib/interop/channel.rb: a channel with an optional buffer, blocked putters and blocked getters. Each critical section is
 one step. Accepted puts and gets are numbered in the order they enter; a value travels with the number of its put.
 */
module Channel {
  datatype Ticket<+V> = Ticket(no: nat, value: V)

  /**
   `blockedPuts` and `blockedGets` are the callers inside `wait`. `accepted`, `gotten` and `delivered` are histories: the
   values put, how many gets entered, and what the gets have received, in the order the gets entered. `overtaken` records
   whether some value was delivered past a buffered one. `truthy` says which values Ruby takes for true: a buffer of
   nothing but `nil` and `false` looks empty to `any?`.
   */
  datatype State<!V> = State(
    limit: nat, truthy: V -> bool, buffer: seq<Ticket<V>>, gets: seq<nat>, puts: seq<Ticket<V>>, closed: bool,
    blockedPuts: set<nat>, blockedGets: set<nat>,
    accepted: seq<V>, gotten: nat, delivered: seq<Ticket<V>>, overtaken: bool)

  datatype Op<V> = Put(value: V) | Get | Close

  function Init<V>(limit: nat, truthy: V -> bool): State<V> {
    State(limit, truthy, [], [], [], false, {}, {}, [], 0, [], false)
  }

  function ApplyPut<V>(s: State<V>, value: V): State<V> {
    var t := Ticket(|s.accepted|, value);
    if s.closed then s
    else if s.gets != [] then
      s.(accepted := s.accepted + [value], delivered := s.delivered + [t],
         gets := s.gets[1..], blockedGets := s.blockedGets - {s.gets[0]}, overtaken := s.overtaken || s.buffer != [])
    else if |s.buffer| < s.limit then s.(accepted := s.accepted + [value], buffer := s.buffer + [t])
    else s.(accepted := s.accepted + [value], puts := s.puts + [t], blockedPuts := s.blockedPuts + {t.no})
  }

  /** `@buffer.any?` */
  predicate Any<V>(truthy: V -> bool, buffer: seq<Ticket<V>>) {
    exists i :: 0 <= i < |buffer| && truthy(buffer[i].value)
  }

  function ApplyGet<V>(s: State<V>): State<V> {
    if s.closed then s
    else if s.puts != [] then
      s.(gotten := s.gotten + 1, delivered := s.delivered + [s.puts[0]], puts := s.puts[1..],
         blockedPuts := s.blockedPuts - {s.puts[0].no}, overtaken := s.overtaken || s.buffer != [])
    else if Any(s.truthy, s.buffer) then
      s.(gotten := s.gotten + 1, delivered := s.delivered + [s.buffer[0]], buffer := s.buffer[1..])
    else s.(gotten := s.gotten + 1, gets := s.gets + [s.gotten], blockedGets := s.blockedGets + {s.gotten})
  }

  function ApplyClose<V>(s: State<V>): State<V> {
    s.(closed := true, blockedPuts := {}, blockedGets := {})
  }

  function Apply<V>(s: State<V>, op: Op<V>): State<V> {
    match op
    case Put(v) => ApplyPut(s, v)
    case Get => ApplyGet(s)
    case Close => if s.closed then s else ApplyClose(s)
  }

  function Run<V>(s: State<V>, ops: seq<Op<V>>): State<V> {
    if ops == [] then s else Apply(Run(s, ops[..|ops| - 1]), ops[|ops| - 1])
  }

  // ---------------------------------------------------------------- what every operation keeps

  /** The accepted values with their numbers. */
  function Tickets<V>(values: seq<V>): (ts: seq<Ticket<V>>)
    ensures |ts| == |values| && forall i | 0 <= i < |ts| :: ts[i] == Ticket(i, values[i])
  {
    if values == [] then []
    else Tickets(values[..|values| - 1]) + [Ticket(|values| - 1, values[|values| - 1])]
  }

  lemma TicketsGrow<V>(values: seq<V>, v: V)
    ensures Tickets(values + [v]) == Tickets(values) + [Ticket(|values|, v)]
  {
    assert (values + [v])[..|values|] == values;
  }

  /** Who waits for what. */
  predicate Shape<V>(s: State<V>) {
    && (s.gets != [] ==> !Any(s.truthy, s.buffer) && s.puts == [])
    && (s.puts != [] ==> |s.buffer| == s.limit)
    && |s.buffer| <= s.limit
    && s.gotten == |s.delivered| + |s.gets|
    && (forall i | 0 <= i < |s.gets| :: s.gets[i] == |s.delivered| + i)
  }

  /** Exactly the callers of queued puts and gets are blocked, and after a close nobody is. */
  ghost predicate Blocking<V>(s: State<V>) {
    if s.closed then s.blockedPuts == {} && s.blockedGets == {}
    else
      && (forall n :: n in s.blockedPuts <==> exists i :: 0 <= i < |s.puts| && s.puts[i].no == n)
      && (forall g :: g in s.blockedGets <==> g in s.gets)
      && (forall i, j | 0 <= i < j < |s.puts| :: s.puts[i].no < s.puts[j].no)
      && (forall i | 0 <= i < |s.puts| :: s.puts[i].no < |s.accepted|)
  }

  /** Nothing is lost, made up or duplicated. */
  ghost predicate Conserved<V>(s: State<V>) {
    multiset(Tickets(s.accepted)) == multiset(s.delivered) + multiset(s.buffer) + multiset(s.puts)
  }

  /** Without overtaking, the values are delivered, buffered and waiting in the order they were put. */
  ghost predicate Ordered<V>(s: State<V>) {
    if s.overtaken then Misplaced(s.delivered)
    else s.delivered + s.buffer + s.puts == Tickets(s.accepted)
  }

  lemma KeepsShape<V>(s: State<V>, op: Op<V>)
    requires Shape(s)
    ensures Shape(Apply(s, op))
  {
  }

  /** A put that joins the queue is blocked, and so are those before it. */
  lemma QueueGrows<V>(puts: seq<Ticket<V>>, blocked: set<nat>, t: Ticket<V>)
    requires forall n :: n in blocked <==> exists i :: 0 <= i < |puts| && puts[i].no == n
    ensures forall n :: n in blocked + {t.no} <==> exists i :: 0 <= i < |puts + [t]| && (puts + [t])[i].no == n
  {
    var all := puts + [t];
    forall n ensures n in blocked + {t.no} <==> exists i :: 0 <= i < |all| && all[i].no == n {
      if i :| 0 <= i < |puts| && puts[i].no == n {
        assert all[i].no == n;
      }
      assert all[|puts|].no == t.no;
    }
  }

  lemma PutKeepsBlocking<V>(s: State<V>, v: V)
    requires Shape(s) && Blocking(s)
    ensures Blocking(ApplyPut(s, v))
  {
    if !s.closed {
      if s.gets != [] {
        assert s.gets == [s.gets[0]] + s.gets[1..];
      } else if |s.buffer| >= s.limit {
        QueueGrows(s.puts, s.blockedPuts, Ticket(|s.accepted|, v));
      }
    }
  }

  lemma GetKeepsBlocking<V>(s: State<V>)
    requires Shape(s) && Blocking(s)
    ensures Blocking(ApplyGet(s))
  {
    var s' := ApplyGet(s);
    if !s.closed && s.puts != [] {
      forall n ensures n in s'.blockedPuts <==> exists i :: 0 <= i < |s'.puts| && s'.puts[i].no == n {
        if n in s'.blockedPuts {
          var i :| 0 <= i < |s.puts| && s.puts[i].no == n;
          assert i > 0 && s'.puts[i - 1].no == n;
        }
        if exists i :: 0 <= i < |s'.puts| && s'.puts[i].no == n {
          var i :| 0 <= i < |s'.puts| && s'.puts[i].no == n;
          assert s.puts[i + 1].no == n && s.puts[0].no < s.puts[i + 1].no;
        }
      }
    }
  }

  lemma HeadOut<T>(xs: seq<T>)
    requires xs != []
    ensures multiset(xs) == multiset{xs[0]} + multiset(xs[1..])
  {
    assert xs == [xs[0]] + xs[1..];
  }

  lemma LastIn<T>(xs: seq<T>, x: T)
    ensures multiset(xs + [x]) == multiset(xs) + multiset{x}
  {
  }

  lemma OneMore<T>(all: multiset<T>, d: multiset<T>, b: multiset<T>, p: multiset<T>, x: T)
    requires all == d + b + p
    ensures all + multiset{x} == (d + multiset{x}) + b + p
    ensures all + multiset{x} == d + (b + multiset{x}) + p
    ensures all + multiset{x} == d + b + (p + multiset{x})
  {
  }

  lemma TicketsGrowAsMultiset<V>(values: seq<V>, v: V)
    ensures multiset(Tickets(values + [v])) == multiset(Tickets(values)) + multiset{Ticket(|values|, v)}
  {
    TicketsGrow(values, v);
    LastIn(Tickets(values), Ticket(|values|, v));
  }

  lemma PutKeepsConserved<V>(s: State<V>, v: V)
    requires Conserved(s)
    ensures Conserved(ApplyPut(s, v))
  {
    if !s.closed {
      var t := Ticket(|s.accepted|, v);
      TicketsGrowAsMultiset(s.accepted, v);
      OneMore(multiset(Tickets(s.accepted)), multiset(s.delivered), multiset(s.buffer), multiset(s.puts), t);
      LastIn(if s.gets != [] then s.delivered else if |s.buffer| < s.limit then s.buffer else s.puts, t);
    }
  }

  /** The first of a queue goes to the end of another. */
  lemma HeadMoves<T>(d: seq<T>, q: seq<T>, other: multiset<T>)
    requires q != []
    ensures multiset(d + [q[0]]) + multiset(q[1..]) + other == multiset(d) + multiset(q) + other
    ensures multiset(d + [q[0]]) + other + multiset(q[1..]) == multiset(d) + other + multiset(q)
  {
    HeadOut(q);
    LastIn(d, q[0]);
    OneShifts(multiset(d), multiset(q[1..]), other, q[0]);
  }

  lemma OneShifts<T>(d: multiset<T>, q: multiset<T>, other: multiset<T>, x: T)
    ensures (d + multiset{x}) + q + other == d + (multiset{x} + q) + other
    ensures (d + multiset{x}) + other + q == d + other + (multiset{x} + q)
  {
  }

  lemma GetKeepsConserved<V>(s: State<V>)
    requires Conserved(s)
    ensures Conserved(ApplyGet(s))
  {
    if s.closed {
    } else if s.puts != [] {
      HeadMoves(s.delivered, s.puts, multiset(s.buffer));
    } else if Any(s.truthy, s.buffer) {
      HeadMoves(s.delivered, s.buffer, multiset(s.puts));
    }
  }

  /** Some delivered value does not have the number of its place. */
  predicate Misplaced<V>(delivered: seq<Ticket<V>>) {
    exists k :: 0 <= k < |delivered| && delivered[k].no != k
  }

  lemma MisplacedStays<V>(delivered: seq<Ticket<V>>, more: seq<Ticket<V>>)
    requires Misplaced(delivered)
    ensures Misplaced(delivered + more)
  {
    var k :| 0 <= k < |delivered| && delivered[k].no != k;
    assert (delivered + more)[k].no != k;
  }

  lemma MisplacedNow<V>(delivered: seq<Ticket<V>>, t: Ticket<V>)
    requires t.no != |delivered|
    ensures Misplaced(delivered + [t])
  {
    assert (delivered + [t])[|delivered|].no != |delivered|;
  }

  lemma PutKeepsOrdered<V>(s: State<V>, v: V)
    requires Shape(s) && Ordered(s)
    ensures Ordered(ApplyPut(s, v))
  {
    var t, n := Ticket(|s.accepted|, v), |s.delivered|;
    if s.overtaken {
      MisplacedStays(s.delivered, [t]);
    } else if !s.closed {
      PutAppends(s.delivered, s.buffer, s.puts, t);
      TicketsGrow(s.accepted, v);
      assert |Tickets(s.accepted)| == |s.delivered + s.buffer + s.puts|;
      if s.gets != [] && s.buffer != [] {
        MisplacedNow(s.delivered, t);
      }
    }
  }

  /** Where a new value goes it comes last of all. */
  lemma PutAppends<T>(d: seq<T>, b: seq<T>, p: seq<T>, t: T)
    ensures b == [] && p == [] ==> (d + [t]) + b + p == d + b + p + [t]
    ensures p == [] ==> d + (b + [t]) + p == d + b + p + [t]
    ensures d + b + (p + [t]) == d + b + p + [t]
  {
  }

  /** Taking the first of what is not delivered leaves the order. */
  lemma GetAdvances<T>(d: seq<T>, b: seq<T>, p: seq<T>)
    ensures b == [] && p != [] ==> (d + [p[0]]) + b + p[1..] == d + b + p
    ensures b != [] ==> (d + [b[0]]) + b[1..] + p == d + b + p
  {
  }

  lemma GetKeepsOrdered<V>(s: State<V>)
    requires Shape(s) && Ordered(s)
    ensures Ordered(ApplyGet(s))
  {
    GetAdvances(s.delivered, s.buffer, s.puts);
    if s.overtaken {
      MisplacedStays(s.delivered, if s.puts != [] then [s.puts[0]] else if s.buffer != [] then [s.buffer[0]] else []);
      assert s.delivered + [] == s.delivered;
    } else if !s.closed && s.puts != [] && s.buffer != [] {
      var all := s.delivered + s.buffer + s.puts;
      assert all[|s.delivered| + |s.buffer|] == s.puts[0];
      MisplacedNow(s.delivered, s.puts[0]);
    }
  }

  lemma CloseKeepsRest<V>(s: State<V>)
    requires Blocking(s) && Conserved(s) && Ordered(s)
    ensures Blocking(Apply(s, Close)) && Conserved(Apply(s, Close)) && Ordered(Apply(s, Close))
  {
    var s' := Apply(s, Close);
    assert s'.delivered == s.delivered && s'.accepted == s.accepted && s'.overtaken == s.overtaken;
    assert s'.buffer == s.buffer && s'.puts == s.puts;
  }

  ghost predicate Inv<V>(s: State<V>) {
    Shape(s) && Blocking(s) && Conserved(s) && Ordered(s)
  }

  lemma PutKeepsInv<V>(s: State<V>, v: V)
    requires Inv(s)
    ensures Inv(ApplyPut(s, v))
  {
    KeepsShape(s, Put(v));
    PutKeepsBlocking(s, v);
    PutKeepsOrdered(s, v);
    PutKeepsConserved(s, v);
  }

  lemma GetKeepsInv<V>(s: State<V>)
    requires Inv(s)
    ensures Inv(ApplyGet(s))
  {
    KeepsShape(s, Get);
    GetKeepsBlocking(s);
    GetKeepsOrdered(s);
    GetKeepsConserved(s);
  }

  lemma CloseKeepsInv<V>(s: State<V>)
    requires Inv(s)
    ensures Inv(Apply(s, Close))
  {
    KeepsShape(s, Close);
    CloseKeepsRest(s);
  }

  lemma LimitStays<V>(s: State<V>, op: Op<V>)
    ensures Apply(s, op).limit == s.limit && Apply(s, op).truthy == s.truthy
  {
  }

  lemma ApplyIs<V>(s: State<V>, v: V)
    ensures Apply(s, Put(v)) == ApplyPut(s, v) && Apply(s, Get) == ApplyGet(s)
  {
  }

  lemma StepKeepsInv<V>(s: State<V>, op: Op<V>)
    requires Inv(s)
    ensures Inv(Apply(s, op))
  {
    match op {
      case Put(v) =>
        ApplyIs(s, v);
        PutKeepsInv(s, v);
      case Get =>
        assert Apply(s, op) == ApplyGet(s);
        GetKeepsInv(s);
      case Close =>
        CloseKeepsInv(s);
    }
  }

  lemma KeepsInv<V>(s: State<V>, op: Op<V>)
    requires Inv(s)
    ensures Inv(Apply(s, op)) && Apply(s, op).limit == s.limit && Apply(s, op).truthy == s.truthy
  {
    StepKeepsInv(s, op);
    LimitStays(s, op);
  }

  lemma {:induction false} RunKeepsInv<V>(limit: nat, truthy: V -> bool, ops: seq<Op<V>>)
    ensures var s := Run(Init(limit, truthy), ops); Inv(s) && s.limit == limit && s.truthy == truthy
  {
    if ops != [] {
      RunKeepsInv(limit, truthy, ops[..|ops| - 1]);
      KeepsInv(Run(Init(limit, truthy), ops[..|ops| - 1]), ops[|ops| - 1]);
    }
  }

  // ---------------------------------------------------------------- what every run guarantees

  lemma BlockedMeansQueued<V>(s: State<V>)
    requires Blocking(s)
    ensures s.blockedGets != {} <==> !s.closed && s.gets != []
    ensures s.blockedPuts != {} ==> s.puts != []
  {
    if s.blockedGets != {} {
      var g :| g in s.blockedGets;
    }
    if s.blockedPuts != {} {
      var n :| n in s.blockedPuts;
    }
    assert !s.closed && s.gets != [] ==> s.gets[0] in s.blockedGets;
  }

  /**
   A waiting get means that no put waits and nothing true is buffered; a waiting put means the buffer is full; values
   are conserved, whatever they are.
   */
  lemma ChannelSafety<V>(limit: nat, truthy: V -> bool, ops: seq<Op<V>>)
    ensures var s := Run(Init(limit, truthy), ops);
            && |s.buffer| <= limit
            && (s.blockedGets != {} ==> s.puts == [] && !Any(truthy, s.buffer))
            && (s.blockedPuts != {} ==> |s.buffer| == limit)
            && multiset(Tickets(s.accepted)) == multiset(s.delivered) + multiset(s.buffer) + multiset(s.puts)
            && (s.closed ==> s.blockedPuts == {} && s.blockedGets == {})
  {
    RunKeepsInv(limit, truthy, ops);
    BlockedMeansQueued(Run(Init(limit, truthy), ops));
  }

  /** A get waits although there is something in the buffer. */
  predicate Stranded<V>(s: State<V>) {
    s.blockedGets != {} && s.buffer != []
  }

  /** A get about to find a buffer of nothing but `nil` and `false`, and no put waiting. */
  predicate Strands<V>(s: State<V>, op: Op<V>) {
    op.Get? && !s.closed && s.puts == [] && s.buffer != [] && !Any(s.truthy, s.buffer)
  }

  /** A queued get over something buffered. */
  predicate Overlooks<V>(s: State<V>) {
    !s.closed && s.gets != [] && s.buffer != []
  }

  lemma OverlooksExactly<V>(s: State<V>, op: Op<V>)
    requires Shape(s) && !Overlooks(s)
    ensures Overlooks(Apply(s, op)) <==> Strands(s, op)
  {
  }

  lemma StrandedMeans<V>(s: State<V>)
    requires Blocking(s)
    ensures Stranded(s) <==> Overlooks(s)
  {
    BlockedMeansQueued(s);
  }

  lemma StrandsExactly<V>(s: State<V>, op: Op<V>)
    requires Inv(s) && !Stranded(s)
    ensures Stranded(Apply(s, op)) <==> Strands(s, op)
  {
    StepKeepsInv(s, op);
    StrandedMeans(s);
    StrandedMeans(Apply(s, op));
    OverlooksExactly(s, op);
  }

  /** The state in which the n-th operation of a run finds the channel. */
  function Before<V>(limit: nat, truthy: V -> bool, ops: seq<Op<V>>, n: nat): State<V>
    requires n <= |ops|
  {
    Run(Init(limit, truthy), ops[..n])
  }

  lemma BeforeStep<V>(limit: nat, truthy: V -> bool, ops: seq<Op<V>>, n: nat)
    requires n < |ops|
    ensures Before(limit, truthy, ops, n + 1) == Apply(Before(limit, truthy, ops, n), ops[n])
  {
    assert ops[..n + 1][..n] == ops[..n];
  }

  lemma {:induction false} NeverStrandedUpTo<V>(limit: nat, truthy: V -> bool, ops: seq<Op<V>>, n: nat)
    requires n <= |ops|
    requires forall i | 0 <= i < n :: !Strands(Before(limit, truthy, ops, i), ops[i])
    ensures !Stranded(Before(limit, truthy, ops, n))
  {
    if n > 0 {
      NeverStrandedUpTo(limit, truthy, ops, n - 1);
      RunKeepsInv(limit, truthy, ops[..n - 1]);
      BeforeStep(limit, truthy, ops, n - 1);
      StrandsExactly(Before(limit, truthy, ops, n - 1), ops[n - 1]);
    }
  }

  /** Throughout a run a blocked get means there is nothing to get, exactly if no get finds a non-empty buffer all false. */
  lemma NothingToGetExactly<V>(limit: nat, truthy: V -> bool, ops: seq<Op<V>>)
    ensures (forall n | 0 <= n <= |ops| :: !Stranded(Before(limit, truthy, ops, n)))
       <==> (forall n | 0 <= n < |ops| :: !Strands(Before(limit, truthy, ops, n), ops[n]))
  {
    if forall n | 0 <= n < |ops| :: !Strands(Before(limit, truthy, ops, n), ops[n]) {
      forall n | 0 <= n <= |ops| ensures !Stranded(Before(limit, truthy, ops, n)) {
        NeverStrandedUpTo(limit, truthy, ops, n);
      }
    } else {
      var n :| 0 <= n < |ops| && Strands(Before(limit, truthy, ops, n), ops[n]);
      RunKeepsInv(limit, truthy, ops[..n]);
      BeforeStep(limit, truthy, ops, n);
      if !Stranded(Before(limit, truthy, ops, n)) {
        StrandsExactly(Before(limit, truthy, ops, n), ops[n]);
      }
    }
  }

  /** Values that are all true never strand a get. */
  lemma TruthNeverStrands<V>(s: State<V>, op: Op<V>)
    requires Conserved(s) && forall v | v in s.accepted :: s.truthy(v)
    ensures !Strands(s, op)
  {
    if s.buffer != [] {
      var t := s.buffer[0];
      assert t in multiset(s.buffer);
      assert t in multiset(Tickets(s.accepted));
      assert t in Tickets(s.accepted);
      assert t.value in s.accepted;
    }
  }

  lemma {:induction false} AcceptedWasPut<V>(limit: nat, truthy: V -> bool, ops: seq<Op<V>>, v: V)
    requires v in Run(Init(limit, truthy), ops).accepted
    ensures Put(v) in ops
  {
    if ops != [] {
      var before, op := ops[..|ops| - 1], ops[|ops| - 1];
      if v in Run(Init(limit, truthy), before).accepted {
        AcceptedWasPut(limit, truthy, before, v);
      } else {
        assert op == Put(v);
      }
    }
  }

  /** The values put before a close, in order. */
  ghost function PutValues<V>(ops: seq<Op<V>>): seq<V> {
    if ops == [] then []
    else
      var before, op := ops[..|ops| - 1], ops[|ops| - 1];
      PutValues(before) + if op.Put? && Close !in before then [op.value] else []
  }

  lemma Accepts<V>(s: State<V>, op: Op<V>)
    ensures Apply(s, op).accepted == s.accepted + (if op.Put? && !s.closed then [op.value] else [])
    ensures Apply(s, op).closed <==> s.closed || op == Close
  {
  }

  /** The channel takes exactly the values put before its close. */
  lemma {:induction false} AcceptedExactly<V>(limit: nat, truthy: V -> bool, ops: seq<Op<V>>)
    ensures Run(Init(limit, truthy), ops).accepted == PutValues(ops)
    ensures Run(Init(limit, truthy), ops).closed <==> Close in ops
  {
    if ops != [] {
      var before, op := ops[..|ops| - 1], ops[|ops| - 1];
      AcceptedExactly(limit, truthy, before);
      Accepts(Run(Init(limit, truthy), before), op);
      assert ops == before + [op];
    }
  }

  /** Nothing happens after a close. */
  lemma {:induction false} ClosedForGood<V>(limit: nat, truthy: V -> bool, ops: seq<Op<V>>, n: nat)
    requires n <= |ops| && Close in ops[..n]
    ensures Run(Init(limit, truthy), ops) == Run(Init(limit, truthy), ops[..n])
    decreases |ops|
  {
    if n == |ops| {
      assert ops[..n] == ops;
    } else {
      var before := ops[..|ops| - 1];
      assert before[..n] == ops[..n];
      ClosedForGood(limit, truthy, before, n);
      AcceptedExactly(limit, truthy, ops[..n]);
    }
  }

  /** In a run that puts nothing but true values a blocked get always means there is nothing to get. */
  lemma TruthStrandsNobody<V>(limit: nat, truthy: V -> bool, ops: seq<Op<V>>, n: nat)
    requires n <= |ops| && forall op | op in ops && op.Put? :: truthy(op.value)
    ensures !Stranded(Before(limit, truthy, ops, n))
  {
    forall i | 0 <= i < |ops| ensures !Strands(Before(limit, truthy, ops, i), ops[i]) {
      RunKeepsInv(limit, truthy, ops[..i]);
      forall v | v in Before(limit, truthy, ops, i).accepted ensures truthy(v) {
        AcceptedWasPut(limit, truthy, ops[..i], v);
      }
      TruthNeverStrands(Before(limit, truthy, ops, i), ops[i]);
    }
    NeverStrandedUpTo(limit, truthy, ops, n);
  }

  /** An operation that delivers past the buffer: a get that finds a put waiting, or a put that finds a get waiting. */
  predicate Overtakes<V>(s: State<V>, op: Op<V>) {
    !s.closed && s.buffer != [] && ((op.Get? && s.puts != []) || (op.Put? && s.gets != []))
  }

  lemma OvertakesStep<V>(s: State<V>, op: Op<V>)
    ensures Apply(s, op).overtaken <==> s.overtaken || Overtakes(s, op)
  {
  }

  predicate AnyOvertakes<V>(limit: nat, truthy: V -> bool, ops: seq<Op<V>>, n: nat)
    requires n <= |ops|
  {
    exists i :: 0 <= i < n && Overtakes(Before(limit, truthy, ops, i), ops[i])
  }

  lemma {:induction false} OvertakenExactly<V>(limit: nat, truthy: V -> bool, ops: seq<Op<V>>, n: nat)
    requires n <= |ops|
    ensures Before(limit, truthy, ops, n).overtaken <==> AnyOvertakes(limit, truthy, ops, n)
  {
    if n > 0 {
      OvertakenExactly(limit, truthy, ops, n - 1);
      BeforeStep(limit, truthy, ops, n - 1);
      OvertakesStep(Before(limit, truthy, ops, n - 1), ops[n - 1]);
      AnyOvertakesStep(limit, truthy, ops, n);
    } else {
      NothingBefore(limit, truthy, ops);
    }
  }

  lemma NothingBefore<V>(limit: nat, truthy: V -> bool, ops: seq<Op<V>>)
    ensures Before(limit, truthy, ops, 0) == Init(limit, truthy) && !AnyOvertakes(limit, truthy, ops, 0)
  {
    assert ops[..0] == [];
  }

  lemma AnyOvertakesStep<V>(limit: nat, truthy: V -> bool, ops: seq<Op<V>>, n: nat)
    requires 0 < n <= |ops|
    ensures AnyOvertakes(limit, truthy, ops, n)
       <==> AnyOvertakes(limit, truthy, ops, n - 1) || Overtakes(Before(limit, truthy, ops, n - 1), ops[n - 1])
  {
  }

  /** The k-th get received the k-th put. */
  predicate Fifo<V(==)>(s: State<V>) {
    forall k | 0 <= k < |s.delivered| :: k < |s.accepted| && s.delivered[k] == Ticket(k, s.accepted[k])
  }

  lemma FifoUnlessOvertaken<V>(s: State<V>)
    requires Inv(s)
    ensures Fifo(s) <==> !s.overtaken
  {
    if !s.overtaken {
      var all := s.delivered + s.buffer + s.puts;
      assert forall k | 0 <= k < |s.delivered| :: all[k] == s.delivered[k];
    }
  }

  /**
   The k-th get receives the k-th put exactly as long as, with something in the buffer, no get finds a put waiting and no
   put finds a get waiting; an unbuffered channel has nothing in its buffer.
   */
  lemma FifoExactly<V>(limit: nat, truthy: V -> bool, ops: seq<Op<V>>)
    ensures Fifo(Run(Init(limit, truthy), ops)) <==> !AnyOvertakes(limit, truthy, ops, |ops|)
    ensures limit == 0 ==> Fifo(Run(Init(limit, truthy), ops))
  {
    assert ops[..|ops|] == ops;
    RunKeepsInv(limit, truthy, ops);
    OvertakenExactly(limit, truthy, ops, |ops|);
    FifoUnlessOvertaken(Run(Init(limit, truthy), ops));
    if limit == 0 {
      forall n | 0 <= n < |ops| ensures !Overtakes(Before(limit, truthy, ops, n), ops[n]) {
        RunKeepsInv(limit, truthy, ops[..n]);
      }
    }
  }

  /** The smallest run that is not first-in, first-out: a buffer of one, two puts, one get. */
  lemma BufferedValueOvertaken<V>(truthy: V -> bool, a: V, b: V)
    ensures var s := Run(Init(1, truthy), [Put(a), Put(b), Get]);
            s.delivered == [Ticket(1, b)] && s.buffer == [Ticket(0, a)] && s.overtaken
  {
    var s := Init(1, truthy);
    RunOneMore(s, [], Put(a));
    RunOneMore(s, [Put(a)], Put(b));
    RunOneMore(s, [Put(a), Put(b)], Get);
    assert [Put(a)] + [Put(b)] == [Put(a), Put(b)];
    assert [Put(a), Put(b)] + [Get] == [Put(a), Put(b), Get];
    assert [] + [Put(a)] == [Put(a)];
  }

  /** A buffered `nil` or `false` is not seen: the get blocks on it, and the next put goes to that get. */
  lemma FalseValueStrandsGet<V>(truthy: V -> bool, a: V, b: V)
    requires !truthy(a)
    ensures var s := Run(Init(1, truthy), [Put(a), Get]);
            s.blockedGets == {0} && s.buffer == [Ticket(0, a)] && s.puts == []
    ensures Run(Init(1, truthy), [Put(a), Get, Put(b)]).delivered == [Ticket(1, b)]
  {
    var s := Init(1, truthy);
    RunOneMore(s, [], Put(a));
    RunOneMore(s, [Put(a)], Get);
    RunOneMore(s, [Put(a), Get], Put(b));
    assert [] + [Put(a)] == [Put(a)];
    assert [Put(a)] + [Get] == [Put(a), Get];
    assert [Put(a), Get] + [Put(b)] == [Put(a), Get, Put(b)];
  }

  lemma RunOneMore<V>(s: State<V>, ops: seq<Op<V>>, op: Op<V>)
    ensures Run(s, ops + [op]) == Apply(Run(s, ops), op)
  {
    assert (ops + [op])[..|ops|] == ops;
  }

  /**
   What a put does: unless the channel is closed its value is taken, by the get that has waited longest, into the buffer
   or, while the caller blocks, behind the puts that wait already.
   */
  ghost predicate Stores<V>(s: State<V>, s': State<V>, value: V) {
    var t := Ticket(|s.accepted|, value);
    && s'.accepted == s.accepted + (if s.closed then [] else [value])
    && (|s.accepted| in s'.blockedPuts <==> !s.closed && s.gets == [] && |s.buffer| == s.limit)
    && (!s.closed && s.gets != [] ==>
          && s'.delivered == s.delivered + [t]
          && |s.delivered| in s.blockedGets && |s.delivered| !in s'.blockedGets)
    && s'.buffer == s.buffer + (if !s.closed && s.gets == [] && |s.buffer| < s.limit then [t] else [])
    && s'.puts == s.puts + (if |s.accepted| in s'.blockedPuts then [t] else [])
  }

  lemma PutPlaces<V>(s: State<V>, value: V)
    requires Shape(s)
    ensures var s', t := ApplyPut(s, value), Ticket(|s.accepted|, value);
            && s'.accepted == s.accepted + (if s.closed then [] else [value])
            && (!s.closed && s.gets != [] ==> s'.delivered == s.delivered + [t])
            && s'.buffer == s.buffer + (if !s.closed && s.gets == [] && |s.buffer| < s.limit then [t] else [])
            && s'.puts == s.puts + (if !s.closed && s.gets == [] && |s.buffer| == s.limit then [t] else [])
  {
  }

  lemma PutBlocks<V>(s: State<V>, value: V)
    requires Inv(s)
    ensures var s' := ApplyPut(s, value);
            && (|s.accepted| in s'.blockedPuts <==> !s.closed && s.gets == [] && |s.buffer| == s.limit)
            && (!s.closed && s.gets != [] ==> |s.delivered| in s.blockedGets && |s.delivered| !in s'.blockedGets)
  {
    assert !s.closed && s.gets != [] ==> s.gets[0] in s.blockedGets;
  }

  lemma PutStores<V>(s: State<V>, value: V)
    requires Inv(s)
    ensures Stores(s, ApplyPut(s, value), value)
  {
    PutPlaces(s, value);
    PutBlocks(s, value);
  }

  /**
   What a get brings: the value of the put that has waited longest, else the oldest in the buffer if something true is
   there, else a place in the queue; and unless values were overtaken the value of its number.
   */
  ghost predicate Brings<V>(s: State<V>, s': State<V>, now: seq<Ticket<V>>) {
    && |now| == (if !s.closed && (s.puts != [] || Any(s.truthy, s.buffer)) then 1 else 0)
    && (!s.closed && now == [] ==> s.gotten in s'.blockedGets)
    && (if now != [] && s.puts != [] then now + s'.puts == s.puts else s'.puts == s.puts)
    && (if now != [] && s.puts == [] then now + s'.buffer == s.buffer else s'.buffer == s.buffer)
    && (now != [] && !s'.overtaken ==> s.gotten < |s'.accepted| && now == [Ticket(s.gotten, s'.accepted[s.gotten])])
  }

  lemma GetCounts<V>(s: State<V>, now: seq<Ticket<V>>)
    requires Shape(s) && ApplyGet(s).delivered == s.delivered + now
    ensures |now| == (if !s.closed && (s.puts != [] || Any(s.truthy, s.buffer)) then 1 else 0)
    ensures !s.closed && now == [] ==> s.gotten in ApplyGet(s).blockedGets
    ensures now != [] ==> s.gotten == |s.delivered|
  {
    assert |ApplyGet(s).delivered| == |s.delivered| + |now|;
  }

  lemma GetTakes<V>(s: State<V>, now: seq<Ticket<V>>)
    requires ApplyGet(s).delivered == s.delivered + now
    ensures var s' := ApplyGet(s);
            && (if now != [] && s.puts != [] then now + s'.puts == s.puts else s'.puts == s.puts)
            && (if now != [] && s.puts == [] then now + s'.buffer == s.buffer else s'.buffer == s.buffer)
  {
    var s' := ApplyGet(s);
    assert now == s'.delivered[|s.delivered|..];
  }

  lemma LastOfFifo<V>(s: State<V>, before: seq<Ticket<V>>, now: seq<Ticket<V>>)
    requires Fifo(s) && s.delivered == before + now && |now| == 1
    ensures |before| < |s.accepted| && now == [Ticket(|before|, s.accepted[|before|])]
  {
    assert s.delivered[|before|] == now[0];
  }

  lemma GetBrings<V>(s: State<V>, now: seq<Ticket<V>>)
    requires Inv(s) && ApplyGet(s).delivered == s.delivered + now
    ensures Brings(s, ApplyGet(s), now)
  {
    GetKeepsInv(s);
    FifoUnlessOvertaken(ApplyGet(s));
    GetCounts(s, now);
    GetTakes(s, now);
    if now != [] && !ApplyGet(s).overtaken {
      LastOfFifo(ApplyGet(s), s.delivered, now);
    }
  }

  // ---------------------------------------------------------------- the class itself

  /** The fields of `Channel`, and its three critical sections. */
  class Shared<V> {
    const limit: nat
    const truthy: V -> bool
    var buffer: seq<Ticket<V>>
    var gets: seq<nat>
    var puts: seq<Ticket<V>>
    var closed: bool
    var blockedPuts: set<nat>
    var blockedGets: set<nat>
    var entered: nat
    var gotten: nat
    ghost var accepted: seq<V>
    ghost var delivered: seq<Ticket<V>>
    ghost var overtaken: bool

    ghost predicate Valid() reads this {
      entered == |accepted| && Inv(View())
    }

    ghost function View(): State<V> reads this {
      State(limit, truthy, buffer, gets, puts, closed, blockedPuts, blockedGets, accepted, gotten, delivered, overtaken)
    }

    constructor (limit: nat, truthy: V -> bool)
      ensures Valid() && View() == Init(limit, truthy)
    {
      this.limit, this.truthy := limit, truthy;
      buffer, gets, puts, closed, blockedPuts, blockedGets := [], [], [], false, {}, {};
      entered, gotten, accepted, delivered, overtaken := 0, 0, [], [], false;
      new;
      RunKeepsInv(limit, truthy, []);
    }

    /** The critical section of `<<`; false stands for the Closed exception. */
    method PutSection(value: V) returns (ok: bool)
      requires entered == |accepted|
      modifies this
      ensures entered == |accepted| && ok == !old(closed) && View() == Apply(old(View()), Put(value))
    {
      if closed {
        return false;
      }
      var t := Ticket(entered, value);
      entered, accepted := entered + 1, accepted + [value];
      if gets != [] {
        delivered := delivered + [t];
        overtaken := overtaken || buffer != [];
        blockedGets := blockedGets - {gets[0]};
        gets := gets[1..];
      } else if |buffer| < limit {
        buffer := buffer + [t];
      } else {
        puts := puts + [t];
        blockedPuts := blockedPuts + {t.no};
      }
      ok := true;
    }

    /** The critical section of `get`: the value when one is there at once. */
    method GetSection() returns (now: seq<Ticket<V>>)
      requires entered == |accepted|
      modifies this
      ensures entered == |accepted| && View() == Apply(old(View()), Get) && delivered == old(delivered) + now
    {
      if closed {
        return [];
      }
      gotten := gotten + 1;
      if puts != [] {
        now := [puts[0]];
        overtaken := overtaken || buffer != [];
        blockedPuts := blockedPuts - {puts[0].no};
        puts := puts[1..];
      } else if Any(truthy, buffer) {
        now := [buffer[0]];
        buffer := buffer[1..];
      } else {
        now := [];
        gets := gets + [gotten - 1];
        blockedGets := blockedGets + {gotten - 1};
      }
      delivered := delivered + now;
    }

    /** The critical section of `close`; false stands for the Closed exception. */
    method CloseSection() returns (ok: bool, left: seq<Ticket<V>>)
      modifies this
      ensures entered == old(entered) && ok == !old(closed) && View() == Apply(old(View()), Close)
      ensures ok ==> left == buffer
    {
      if closed {
        return false, [];
      }
      closed := true;
      blockedPuts := {};
      blockedGets := {};
      return true, buffer;
    }

    /**
     `<<`: the value goes to the get that has waited longest, which is then woken; the caller blocks exactly if no get
     waits and the buffer is full.
     */
    method Push(value: V) returns (ok: bool)
      requires Valid()
      modifies this
      ensures Valid() && ok == !old(closed) && View() == Apply(old(View()), Put(value))
      ensures Stores(old(View()), View(), value)
    {
      KeepsInv(View(), Put(value));
      PutStores(View(), value);
      ok := PutSection(value);
    }

    /**
     `get`: a value at once exactly if a put waits or something true is buffered; otherwise the caller waits, or the
     channel is closed. Unless a value was overtaken, the get with number k has the k-th value put.
     */
    method Pull() returns (now: seq<Ticket<V>>)
      requires Valid()
      modifies this
      ensures Valid() && View() == Apply(old(View()), Get) && delivered == old(delivered) + now
      ensures Brings(old(View()), View(), now)
    {
      ghost var s := View();
      KeepsInv(s, Get);
      now := GetSection();
      GetBrings(s, now);
    }

    /** `close`: everybody is woken, and what was never delivered is accounted for. */
    method Shut() returns (ok: bool, left: seq<Ticket<V>>)
      requires Valid()
      modifies this
      ensures Valid() && ok == !old(closed) && View() == Apply(old(View()), Close)
      ensures closed && blockedPuts == {} && blockedGets == {}
      ensures ok ==> left == old(buffer) == buffer
      ensures ok ==> multiset(Tickets(accepted)) == multiset(delivered) + multiset(left) + multiset(puts)
    {
      KeepsInv(View(), Close);
      ok, left := CloseSection();
    }
  }
}
