/** The ring buffer shared by one producer and one consumer: Insert and Remove as
    the separate steps they are, in every interleaving. Only the updates of the
    count are atomic read-modify-writes. The consumer is the drain loop of
    USBtoSerial, which removes as many bytes as a count it read beforehand. */
module RingInterleaving {
  import opened Bytes

  /** Where the producer is: Cleared has seen a free place; Stored has written the
      byte; Advanced has moved In, and has yet to count the byte. */
  datatype Producer = Idle | Cleared(b: byte) | Stored(b: byte) | Advanced(b: byte)

  /** Where the consumer is: it may still remove `budget` bytes. Peeked has read a
      byte, Sent has passed it on, Loaded has read it again for Remove, and Moved
      has moved Out and has yet to uncount it. */
  datatype Consumer =
    | Waiting
    | Draining(budget: nat)
    | Peeked(budget: nat, b: byte)
    | Sent(budget: nat, b: byte)
    | Loaded(budget: nat, b: byte)
    | Moved(budget: nat, b: byte)

  /** `inserted`, `removed` and `sent` record what has been counted in, counted
      out, and passed to the host so far. */
  datatype Ring = Ring(
    store: seq<byte>, inp: nat, out: nat, count: nat, prod: Producer, cons: Consumer,
    inserted: seq<byte>, removed: seq<byte>, sent: seq<byte>)

  datatype Action =
    | Offer(b: byte) | Store | AdvanceIn | CountUp
    | CacheCount | Peek | SendOk | SendFails | Load | AdvanceOut | CountDown | Stop

  predicate WellFormed(r: Ring) {
    |r.store| > 0 && r.inp < |r.store| && r.out < |r.store|
  }

  /** A pointer increment with wrap-around. */
  function Next(p: nat, n: nat): nat {
    if p + 1 == n then 0 else p + 1
  }

  function Initial(store: seq<byte>): Ring {
    Ring(store, 0, 0, 0, Idle, Waiting, [], [], [])
  }

  /** One micro-step; an action that is not enabled changes nothing. */
  function Step(r: Ring, a: Action): (r': Ring)
    requires WellFormed(r)
    ensures WellFormed(r') && |r'.store| == |r.store|
  {
    match a
    case Offer(b) => if r.prod.Idle? && r.count < |r.store| then r.(prod := Cleared(b)) else r
    case Store => if r.prod.Cleared? then r.(store := r.store[r.inp := r.prod.b], prod := Stored(r.prod.b)) else r
    case AdvanceIn => if r.prod.Stored? then r.(inp := Next(r.inp, |r.store|), prod := Advanced(r.prod.b)) else r
    case CountUp =>
      if r.prod.Advanced? then r.(count := r.count + 1, prod := Idle, inserted := r.inserted + [r.prod.b]) else r
    case CacheCount => if r.cons.Waiting? then r.(cons := Draining(r.count)) else r
    case Peek =>
      if r.cons.Draining? && r.cons.budget > 0 then r.(cons := Peeked(r.cons.budget, r.store[r.out])) else r
    case SendOk =>
      if r.cons.Peeked? then r.(cons := Sent(r.cons.budget, r.cons.b), sent := r.sent + [r.cons.b]) else r
    case SendFails => if r.cons.Peeked? then r.(cons := Waiting) else r
    case Load => if r.cons.Sent? then r.(cons := Loaded(r.cons.budget, r.store[r.out])) else r
    case AdvanceOut =>
      if r.cons.Loaded? then r.(out := Next(r.out, |r.store|), cons := Moved(r.cons.budget, r.cons.b)) else r
    case CountDown =>
      if r.cons.Moved? && r.count > 0 && r.cons.budget > 0 then
        r.(count := r.count - 1, cons := Draining(r.cons.budget - 1), removed := r.removed + [r.cons.b])
      else r
    case Stop => if r.cons.Draining? then r.(cons := Waiting) else r
  }

  function Run(r: Ring, schedule: seq<Action>): (r': Ring)
    requires WellFormed(r)
    ensures WellFormed(r') && |r'.store| == |r.store|
  {
    if schedule == [] then r
    else Step(Run(r, schedule[..|schedule| - 1]), schedule[|schedule| - 1])
  }

  // ---- The invariant ----

  /** The pointers follow the numbers of bytes counted in and out. */
  predicate Pointers(r: Ring)
    requires WellFormed(r)
  {
    && |r.removed| <= |r.inserted| <= |r.removed| + |r.store|
    && r.count == |r.inserted| - |r.removed|
    && r.inp == Mod(|r.inserted| + (if r.prod.Advanced? then 1 else 0), |r.store|)
    && r.out == Mod(|r.removed| + (if r.cons.Moved? then 1 else 0), |r.store|)
    && (!r.prod.Idle? ==> r.count < |r.store|)
  }

  /** Every byte not yet removed is in its place. */
  predicate Pending(r: Ring)
    requires WellFormed(r)
  {
    && (forall j :: |r.removed| <= j < |r.inserted| ==> r.store[Mod(j, |r.store|)] == r.inserted[j])
    && (r.prod.Stored? || r.prod.Advanced? ==> r.store[Mod(|r.inserted|, |r.store|)] == r.prod.b)
  }

  /** The consumer never removes more than is there, and holds the oldest byte. */
  predicate Drain(r: Ring) {
    && r.removed <= r.inserted
    && (!r.cons.Waiting? ==> r.cons.budget <= r.count)
    && (r.cons.Peeked? || r.cons.Sent? || r.cons.Loaded? || r.cons.Moved? ==>
          r.cons.budget > 0 && |r.removed| < |r.inserted| && r.cons.b == r.inserted[|r.removed|])
    && r.sent == r.removed + (if r.cons.Sent? || r.cons.Loaded? || r.cons.Moved? then [r.cons.b] else [])
  }

  predicate Inv(r: Ring) {
    WellFormed(r) && Pointers(r) && Pending(r) && Drain(r)
  }

  /** Storing does not touch a byte that is yet to be removed. */
  lemma StoreKeepsPending(r: Ring)
    requires Inv(r) && r.prod.Cleared?
    ensures Pending(Step(r, Store))
    ensures forall j :: |r.removed| <= j < |r.inserted| ==> Mod(j, |r.store|) != r.inp
  {
    forall j | |r.removed| <= j < |r.inserted| ensures Mod(j, |r.store|) != r.inp {
      ModDistinct(j, |r.inserted|, |r.store|);
    }
  }

  lemma ProducerKeepsInv(r: Ring, a: Action)
    requires Inv(r) && (a.Offer? || a.Store? || a.AdvanceIn? || a.CountUp?)
    ensures Inv(Step(r, a))
  {
    hide Mod;
    if a.Store? && r.prod.Cleared? {
      StoreKeepsPending(r);
    } else if a.AdvanceIn? && r.prod.Stored? {
      ModSucc(|r.inserted|, |r.store|);
    }
  }

  lemma ConsumerKeepsInv(r: Ring, a: Action)
    requires Inv(r) && !(a.Offer? || a.Store? || a.AdvanceIn? || a.CountUp?)
    ensures Inv(Step(r, a))
  {
    hide Mod;
    if a.AdvanceOut? && r.cons.Loaded? {
      ModSucc(|r.removed|, |r.store|);
    }
  }

  lemma {:induction false} RunsKeepInv(store: seq<byte>, schedule: seq<Action>)
    requires |store| > 0
    ensures Inv(Run(Initial(store), schedule))
  {
    if schedule != [] {
      var prev := schedule[..|schedule| - 1];
      RunsKeepInv(store, prev);
      var r, a := Run(Initial(store), prev), schedule[|schedule| - 1];
      if a.Offer? || a.Store? || a.AdvanceIn? || a.CountUp? {
        ProducerKeepsInv(r, a);
      } else {
        ConsumerKeepsInv(r, a);
      }
    }
  }

  // ---- What follows for clients ----

  /** The bytes a client may think of as queued: counted in and not counted out. */
  function Queue(r: Ring): seq<byte>
    requires |r.removed| <= |r.inserted|
  {
    r.inserted[|r.removed|..]
  }

  /** The queue as the storage array and the pointers represent it. */
  function Represented(r: Ring): seq<byte>
    requires WellFormed(r)
  {
    seq(r.count, i requires 0 <= i => r.store[Mod(r.out + i, |r.store|)])
  }

  lemma {:induction false} ModOfMod(x: nat, i: nat, p: nat)
    requires p > 0
    ensures Mod(Mod(x, p) + i, p) == Mod(x + i, p)
    decreases x
  {
    if x >= p {
      ModOfMod(x - p, i, p);
    }
  }

  /** Between removals, the storage holds exactly the queue. */
  lemma QueueIsStored(r: Ring)
    requires Inv(r) && !r.cons.Moved?
    ensures Represented(r) == Queue(r)
  {
    forall i | 0 <= i < r.count ensures Represented(r)[i] == Queue(r)[i] {
      ModOfMod(|r.removed|, i, |r.store|);
    }
  }

  /** Linearizability: a step appends the producer's byte to the queue, or takes
      the oldest byte off it, or leaves the queue as it is; and the steps that
      change it are the two counter updates. */
  lemma Linearizable(r: Ring, a: Action)
    requires Inv(r)
    ensures Inv(Step(r, a))
    ensures var q, q' := Queue(r), Queue(Step(r, a));
            if a.CountUp? && r.prod.Advanced? then q' == q + [r.prod.b]
            else if a.CountDown? && r.cons.Moved? then q == [r.cons.b] + q'
            else q' == q
  {
    hide Pointers, Pending;
    if a.Offer? || a.Store? || a.AdvanceIn? || a.CountUp? {
      ProducerKeepsInv(r, a);
    } else {
      ConsumerKeepsInv(r, a);
    }
  }

  /** Under every schedule, from an empty ring of any size: what has been removed
      is a prefix of what has been inserted; the count is never negative and never
      above the capacity; whenever the consumer looks at the ring there is a byte
      to look at, it is the oldest one, and Remove returns the byte that was sent;
      and what has been sent is what has been removed, but for the one byte
      between its sending and its removal. */
  lemma FifoUnderEverySchedule(store: seq<byte>, schedule: seq<Action>)
    requires |store| > 0
    ensures var r := Run(Initial(store), schedule);
            && r.removed <= r.inserted
            && r.count == |r.inserted| - |r.removed| <= |store|
            && (!r.cons.Waiting? && !r.cons.Draining? ==> r.count >= 1 && r.cons.b == r.inserted[|r.removed|])
            && (r.cons.Waiting? || r.cons.Draining? || r.cons.Peeked? ==> r.sent == r.removed)
            && (r.cons.Sent? || r.cons.Loaded? || r.cons.Moved? ==> r.sent == r.removed + [r.cons.b])
  {
    hide Pending, Step;
    RunsKeepInv(store, schedule);
  }

  /** All of Insert, without a test for a free place before it. */
  function InsertUnchecked(r: Ring, b: byte): Ring
    requires WellFormed(r) && r.prod.Idle?
  {
    Step(Step(Step(r.(prod := Cleared(b)), Store), AdvanceIn), CountUp)
  }

  /** The receive interrupt of USBtoSerial does not test for a free place. Its
      Insert keeps the queue right if and only if there is one. */
  lemma UncheckedInsertExact(r: Ring, b: byte)
    requires Inv(r) && r.prod.Idle?
    ensures Inv(InsertUnchecked(r, b)) <==> r.count < |r.store|
  {
    hide Pending, Drain;
    if r.count < |r.store| {
      var r1 := Step(r, Offer(b));
      ProducerKeepsInv(r, Offer(b));
      ProducerKeepsInv(r1, Store);
      ProducerKeepsInv(Step(r1, Store), AdvanceIn);
      ProducerKeepsInv(Step(Step(r1, Store), AdvanceIn), CountUp);
    }
  }

  /** On a full ring it writes over the oldest byte, which is never delivered. */
  lemma OverrunReplacesOldest(r: Ring, b: byte)
    requires Inv(r) && r.count == |r.store| && r.prod.Idle? && !r.cons.Moved?
    ensures var o := InsertUnchecked(r, b);
            o.store[o.out] == b && Queue(o)[0] == Queue(r)[0]
  {
    ModPeriod(|r.removed|, |r.store|);
  }

  lemma ModPeriod(x: nat, p: nat)
    requires p > 0
    ensures Mod(x + p, p) == Mod(x, p)
  {}

  // ---- What is inserted ----

  /** The bytes that were offered while the producer was idle and a place was free. */
  function Offered(r: Ring, schedule: seq<Action>): seq<byte>
    requires WellFormed(r)
  {
    if schedule == [] then []
    else
      var prev, a := schedule[..|schedule| - 1], schedule[|schedule| - 1];
      var q := Run(r, prev);
      Offered(r, prev) + if a.Offer? && q.prod.Idle? && q.count < |q.store| then [a.b] else []
  }

  /** The byte in the producer's hands. */
  function InHand(r: Ring): seq<byte> {
    if r.prod.Idle? then [] else [r.prod.b]
  }

  lemma StepInserts(r: Ring, a: Action)
    requires WellFormed(r)
    ensures Step(r, a).inserted + InHand(Step(r, a))
         == r.inserted + InHand(r) + if a.Offer? && r.prod.Idle? && r.count < |r.store| then [a.b] else []
  {}

  /** Under every schedule, what has been counted in, followed by the byte in the
      producer's hands, are exactly the bytes offered to an idle producer with a free
      place, in order. */
  lemma {:induction false} InsertedAreOffered(store: seq<byte>, schedule: seq<Action>)
    requires |store| > 0
    ensures var r := Run(Initial(store), schedule); r.inserted + InHand(r) == Offered(Initial(store), schedule)
  {
    hide Step;
    if schedule != [] {
      var prev := schedule[..|schedule| - 1];
      InsertedAreOffered(store, prev);
      StepInserts(Run(Initial(store), prev), schedule[|schedule| - 1]);
    }
  }

  // ---- Progress ----

  predicate IsProducer(a: Action) {
    a.Offer? || a.Store? || a.AdvanceIn? || a.CountUp?
  }

  /** Steps of the consumer alone. */
  predicate ConsumerOnly(schedule: seq<Action>) {
    forall i :: 0 <= i < |schedule| ==> !IsProducer(schedule[i])
  }

  /** Steps of the producer alone. */
  predicate ProducerOnly(schedule: seq<Action>) {
    forall i :: 0 <= i < |schedule| ==> IsProducer(schedule[i])
  }

  lemma {:induction false} ConsumerLeaves(r: Ring, schedule: seq<Action>)
    requires WellFormed(r) && ConsumerOnly(schedule)
    ensures var q := Run(r, schedule); q.prod == r.prod && q.inserted == r.inserted
  {
    if schedule != [] {
      ConsumerLeaves(r, schedule[..|schedule| - 1]);
    }
  }

  /** An Insert makes progress whatever the consumer does between its steps: the
      offered byte is the next to be counted in, and the producer is idle again. */
  lemma InsertCompletes(r: Ring, b: byte, c1: seq<Action>, c2: seq<Action>, c3: seq<Action>)
    requires WellFormed(r) && r.prod.Idle? && r.count < |r.store|
    requires ConsumerOnly(c1) && ConsumerOnly(c2) && ConsumerOnly(c3)
    ensures var r1 := Run(Step(r, Offer(b)), c1);
            var r2 := Run(Step(r1, Store), c2);
            var r3 := Run(Step(r2, AdvanceIn), c3);
            var r4 := Step(r3, CountUp);
            r4.prod.Idle? && r4.inserted == r.inserted + [b]
  {
    hide Run;
    ConsumerLeaves(Step(r, Offer(b)), c1);
    var r1 := Run(Step(r, Offer(b)), c1);
    ConsumerLeaves(Step(r1, Store), c2);
    var r2 := Run(Step(r1, Store), c2);
    ConsumerLeaves(Step(r2, AdvanceIn), c3);
  }

  /** Alone, it appends the byte to the queue. */
  lemma InsertAppends(r: Ring, b: byte)
    requires Inv(r) && r.prod.Idle? && r.count < |r.store|
    ensures var q := Step(Step(Step(Step(r, Offer(b)), Store), AdvanceIn), CountUp);
            q.removed == r.removed && |q.removed| <= |q.inserted| && Queue(q) == Queue(r) + [b]
  {
    hide Pending, Mod;
  }

  lemma {:induction false} ProducerLeaves(r: Ring, schedule: seq<Action>)
    requires Inv(r) && ProducerOnly(schedule)
    ensures var q := Run(r, schedule);
            Inv(q) && q.cons == r.cons && q.removed == r.removed && q.sent == r.sent && r.inserted <= q.inserted
  {
    hide Pending, Pointers, Drain, Step;
    if schedule != [] {
      var prev := schedule[..|schedule| - 1];
      ProducerLeaves(r, prev);
      ProducerStep(Run(r, prev), schedule[|schedule| - 1]);
    }
  }

  lemma ProducerStep(r: Ring, a: Action)
    requires Inv(r) && IsProducer(a)
    ensures var q := Step(r, a);
            Inv(q) && q.cons == r.cons && q.removed == r.removed && q.sent == r.sent && r.inserted <= q.inserted
  {
    hide Pending, Pointers, Drain;
    ProducerKeepsInv(r, a);
  }

  /** A ring that was r when the drain loop looked at its count, and whose consumer is
      n steps into the turn after that. */
  predicate Stage(q: Ring, r: Ring, n: nat) {
    && Inv(q) && r.inserted <= q.inserted && |r.removed| < |r.inserted| && q.removed == r.removed
    && q.sent == r.sent + (if n >= 2 then [r.inserted[|r.removed|]] else [])
    && (match n
        case 0 => q.cons.Draining?
        case 1 => q.cons.Peeked?
        case 2 => q.cons.Sent?
        case 3 => q.cons.Loaded?
        case _ => q.cons.Moved?)
    && q.cons.budget == r.count > 0
  }

  function TurnAction(n: nat): Action {
    match n
    case 0 => Peek
    case 1 => SendOk
    case 2 => Load
    case _ => AdvanceOut
  }

  lemma StageProduces(q: Ring, r: Ring, n: nat, p: seq<Action>)
    requires Stage(q, r, n) && ProducerOnly(p)
    ensures Stage(Run(q, p), r, n)
  {
    hide Pending, Pointers, Drain, Step, Run;
    ProducerLeaves(q, p);
  }

  lemma StageConsumes(q: Ring, r: Ring, n: nat)
    requires Stage(q, r, n) && n < 4
    ensures Stage(Step(q, TurnAction(n)), r, n + 1)
  {
    hide Pending, Mod;
    ConsumerKeepsInv(q, TurnAction(n));
    assert q.inserted[|q.removed|] == r.inserted[|r.removed|];
  }

  lemma StageBegins(r: Ring)
    requires Inv(r) && r.cons.Waiting? && r.count >= 1
    ensures Stage(Step(r, CacheCount), r, 0)
  {
    hide Pending, Mod;
    ConsumerKeepsInv(r, CacheCount);
  }

  lemma StageEnds(q: Ring, r: Ring)
    requires Stage(q, r, 4)
    ensures var e := Step(q, CountDown);
            && Inv(e) && e.cons == Draining(r.count - 1)
            && e.removed == r.removed + [r.inserted[|r.removed|]] && e.sent == r.sent + [r.inserted[|r.removed|]]
  {
    hide Pending, Mod;
    ConsumerKeepsInv(q, CountDown);
  }

  lemma StageNext(q: Ring, r: Ring, n: nat, p: seq<Action>)
    requires Stage(q, r, n) && n < 4 && ProducerOnly(p)
    ensures Stage(Run(Step(q, TurnAction(n)), p), r, n + 1)
  {
    StageConsumes(q, r, n);
    StageProduces(Step(q, TurnAction(n)), r, n + 1, p);
  }

  /** The turn of the drain loop that follows a look at the count: the oldest byte is
      sent and removed, whatever the producer does between its steps. */
  lemma RemoveCompletes(r: Ring, p: seq<seq<Action>>)
    requires Inv(r) && r.cons.Waiting? && r.count >= 1
    requires |p| == 5 && forall i :: 0 <= i < 5 ==> ProducerOnly(p[i])
    ensures var r1 := Run(Step(r, CacheCount), p[0]);
            var r2 := Run(Step(r1, Peek), p[1]);
            var r3 := Run(Step(r2, SendOk), p[2]);
            var r4 := Run(Step(r3, Load), p[3]);
            var r5 := Run(Step(r4, AdvanceOut), p[4]);
            var r6 := Step(r5, CountDown);
            && |r.removed| < |r.inserted| && Inv(r6) && r6.cons == Draining(r.count - 1)
            && r6.removed == r.removed + [r.inserted[|r.removed|]]
            && r6.sent == r.sent + [r.inserted[|r.removed|]]
  {
    hide Run, Pending, Step, Drain, Mod;
    StageBegins(r);
    StageProduces(Step(r, CacheCount), r, 0, p[0]);
    var r1 := Run(Step(r, CacheCount), p[0]);
    StageNext(r1, r, 0, p[1]);
    var r2 := Run(Step(r1, Peek), p[1]);
    StageNext(r2, r, 1, p[2]);
    var r3 := Run(Step(r2, SendOk), p[2]);
    StageNext(r3, r, 2, p[3]);
    var r4 := Run(Step(r3, Load), p[3]);
    StageNext(r4, r, 3, p[4]);
    StageEnds(Run(Step(r4, AdvanceOut), p[4]), r);
  }
}
