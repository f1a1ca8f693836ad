/**
 What the queue promises, over every schedule of any number of producers and one consumer:
 it refines a plain bounded FIFO, producers and consumer never share a cell, a refused push
 means a full ring, an empty pop means an unpublished head, and retries are paid for.
 */
module MpscTheorems {
  import opened Arithmetic
  import opened RingIndex
  import opened MpscProtocol
  import opened MpscInvariant

  // ----- The specification: a bounded FIFO -----

  datatype Op<T> = Enqueue(value: T) | Dequeue(value: T)

  datatype Fifo<T> = Contents(queue: seq<T>) | Illegal

  /** Replays operations on an empty bounded FIFO; an overflow or a wrong head is illegal. */
  function Replay<T(==)>(ops: seq<Op<T>>, capacity: nat): Fifo<T> {
    if ops == [] then Contents([])
    else
      match Replay(ops[..|ops| - 1], capacity)
      case Illegal => Illegal
      case Contents(q) =>
        match ops[|ops| - 1]
        case Enqueue(v) => if |q| < capacity then Contents(q + [v]) else Illegal
        case Dequeue(v) => if |q| > 0 && q[0] == v then Contents(q[1..]) else Illegal
  }

  function Dequeued<T>(ops: seq<Op<T>>): seq<T> {
    if ops == [] then []
    else
      var last := ops[|ops| - 1];
      Dequeued(ops[..|ops| - 1]) + if last.Dequeue? then [last.value] else []
  }

  function Enqueued<T>(ops: seq<Op<T>>): seq<T> {
    if ops == [] then []
    else
      var last := ops[|ops| - 1];
      Enqueued(ops[..|ops| - 1]) + if last.Enqueue? then [last.value] else []
  }

  // ----- The refinement -----

  /** The queue that a protocol state stands for: claimed and not handed back. */
  function Queue<T>(st: State<T>): seq<T> {
    if Released(st) <= |st.claims| then Values(st.claims[Released(st)..]) else []
  }

  /** The values the consumer has finished with; the last may still be on its way out of pop. */
  function Delivered<T>(st: State<T>): seq<T> {
    st.popped + if st.consumer.Advancing? then [st.consumer.result] else []
  }

  predicate ClaimSucceeds<T>(st: State<T>, t: nat, spurious: bool) {
    Local(st, t).Claiming? && st.enqueuePos == Local(st, t).pos && !spurious
  }

  /** A successful compare-exchange enqueues, handing the cell back dequeues, nothing else counts. */
  function OpsOf<T>(st: State<T>, a: Action<T>): seq<Op<T>> {
    match a
    case Begin(_, _) => []
    case Advance(t, spurious) => if ClaimSucceeds(st, t, spurious) then [Enqueue(Local(st, t).call.value)] else []
    case Consume(_) => if st.consumer.Releasing? then [Dequeue(st.consumer.result)] else []
  }

  function Trace<T>(st: State<T>, acts: seq<Action<T>>): seq<Op<T>>
    requires Sized(st)
  {
    if acts == [] then []
    else
      var before := acts[..|acts| - 1];
      Trace(st, before) + OpsOf(Exec(st, before), acts[|acts| - 1])
  }

  lemma ReplaySnoc<T>(ops: seq<Op<T>>, op: Op<T>, capacity: nat)
    ensures Replay(ops + [op], capacity) ==
            match Replay(ops, capacity)
            case Illegal => Illegal
            case Contents(q) =>
              match op
              case Enqueue(v) => if |q| < capacity then Contents(q + [v]) else Illegal
              case Dequeue(v) => if |q| > 0 && q[0] == v then Contents(q[1..]) else Illegal
    ensures Dequeued(ops + [op]) == Dequeued(ops) + if op.Dequeue? then [op.value] else []
    ensures Enqueued(ops + [op]) == Enqueued(ops) + if op.Enqueue? then [op.value] else []
  {
    assert (ops + [op])[..|ops|] == ops;
  }

  lemma ValuesSnoc<T>(log: seq<Claim<T>>, c: Claim<T>, base: nat)
    requires base <= |log|
    ensures Values((log + [c])[base..]) == Values(log[base..]) + [c.value]
    ensures Values(log + [c]) == Values(log) + [c.value]
  {
    assert (log + [c])[base..] == log[base..] + [c];
  }

  /** A successful compare-exchange appends its value to the abstract queue, which had room for it. */
  lemma ClaimEnqueues<T>(st: State<T>, t: nat)
    requires Inv(st) && ClaimSucceeds(st, t, false)
    ensures var st' := StepProducer(st, t, false);
            var v := Local(st, t).call.value;
            && |Queue(st)| < Capacity(st) && Queue(st') == Queue(st) + [v]
            && Delivered(st') == Delivered(st)
            && Values(st'.claims) == Values(st.claims) + [v]
  {
    assert ProducerAgrees(st, t);
    ValuesSnoc(st.claims, Claim(t, Local(st, t).call.value), Released(st));
  }

  /** Handing a cell back removes the head of the abstract queue, and it is the value being returned. */
  lemma ReleaseDequeues<T>(st: State<T>, residue: T)
    requires Inv(st) && st.consumer.Releasing?
    ensures var st' := StepConsumer(st, residue);
            var v := st.consumer.result;
            && |Queue(st)| > 0 && Queue(st)[0] == v && Queue(st') == Queue(st)[1..]
            && Delivered(st') == Delivered(st) + [v]
            && st'.claims == st.claims
  {
    var base := Released(st);
    assert st.claims[base..][0] == st.claims[base];
    assert st.claims[base..][1..] == st.claims[base + 1..];
  }

  lemma ProducerStutters<T>(st: State<T>, t: nat, spurious: bool)
    requires Sized(st) && !ClaimSucceeds(st, t, spurious)
    ensures var next := StepProducer(st, t, spurious);
            && next.claims == st.claims && next.consumer == st.consumer
            && next.dequeuePos == st.dequeuePos && next.popped == st.popped
  {
  }

  lemma ConsumerStutters<T>(st: State<T>, residue: T)
    requires Inv(st) && !st.consumer.Releasing?
    ensures var next := StepConsumer(st, residue);
            next.claims == st.claims && Released(next) == Released(st) && Delivered(next) == Delivered(st)
  {
  }

  /** Every other operation leaves the abstract queue as it was. */
  lemma OtherStepsStutter<T>(st: State<T>, a: Action<T>)
    requires Inv(st) && OpsOf(st, a) == []
    ensures Queue(Step(st, a)) == Queue(st) && Step(st, a).claims == st.claims
    ensures Delivered(Step(st, a)) == Delivered(st)
  {
    match a
    case Begin(_, _) =>
    case Advance(t, spurious) => ProducerStutters(st, t, spurious);
    case Consume(residue) => ConsumerStutters(st, residue);
  }

  /** The operations are legal for a bounded FIFO and account for its contents and for all that came out and went in. */
  predicate Matches<T(==)>(ops: seq<Op<T>>, st: State<T>) {
    && Replay(ops, Capacity(st)) == Contents(Queue(st))
    && Dequeued(ops) == Delivered(st)
    && Enqueued(ops) == Values(st.claims)
  }

  lemma StepMatches<T>(ops: seq<Op<T>>, st: State<T>, a: Action<T>)
    requires Inv(st) && Matches(ops, st)
    ensures Matches(ops + OpsOf(st, a), Step(st, a))
  {
    if OpsOf(st, a) == [] {
      OtherStepsStutter(st, a);
      assert ops + OpsOf(st, a) == ops;
    } else if a.Advance? {
      ClaimEnqueues(st, a.tid);
      ReplaySnoc(ops, Enqueue(Local(st, a.tid).call.value), Capacity(st));
    } else {
      ReleaseDequeues(st, a.residue);
      ReplaySnoc(ops, Dequeue(st.consumer.result), Capacity(st));
    }
  }

  /**
   Forward simulation over whole runs: the operations of any schedule are a legal history of a
   bounded FIFO that ends in the queue's contents, and what the consumer got is what it dequeued.
   */
  lemma {:induction false} RefinesFifo<T>(st: State<T>, acts: seq<Action<T>>)
    requires Initial(st) && Capacity(st) >= 2
    ensures Matches(Trace(st, acts), Exec(st, acts))
  {
    if acts == [] {
    } else {
      var before, a := acts[..|acts| - 1], acts[|acts| - 1];
      var mid := Exec(st, before);
      RefinesFifo(st, before);
      ReachableInv(st, before);
      StepMatches(Trace(st, before), mid, a);
    }
  }

  /** Nothing is lost, duplicated or reordered: what was claimed is what was delivered, then what is queued. */
  lemma ClaimedIsDeliveredThenQueued<T>(st: State<T>)
    requires Inv(st)
    ensures Values(st.claims) == Delivered(st) + Queue(st)
    ensures |Queue(st)| <= Capacity(st)
  {
  }

  /** The claim counter passes the dequeue counter by one more than a lap only between the consumer's two stores. */
  lemma ClaimsStayWithinALap<T>(st: State<T>, acts: seq<Action<T>>)
    requires Initial(st) && Capacity(st) >= 2
    ensures var end := Exec(st, acts);
            && end.dequeuePos <= end.enqueuePos <= end.dequeuePos + Capacity(st) + 1
            && (end.enqueuePos == end.dequeuePos + Capacity(st) + 1 ==> end.consumer.Advancing?)
  {
    ReachableInv(st, acts);
  }

  lemma {:induction false} ByProducerPrefix<T>(log: seq<Claim<T>>, n: nat, t: nat)
    requires n <= |log|
    ensures ByProducer(log[..n], t) <= ByProducer(log, t)
  {
    if n < |log| {
      var front := log[..|log| - 1];
      ByProducerPrefix(front, n, t);
      assert front[..n] == log[..n];
    } else {
      assert log[..n] == log;
    }
  }

  lemma {:induction false} ByProducerMissing<T>(log: seq<Claim<T>>, n: nat, pos: nat, t: nat)
    requires n <= pos < |log| && log[pos].tid == t
    ensures |ByProducer(log[..n], t)| < |ByProducer(log, t)|
  {
    var front := log[..|log| - 1];
    assert front[..n] == log[..n];
    if pos == |log| - 1 {
      ByProducerPrefix(front, n, t);
    } else {
      ByProducerMissing(front, n, pos, t);
    }
  }

  /** A producer's part of a log: of a single entry, and of a log in two parts. */
  lemma {:induction false} ByProducerConcat<T>(a: seq<Claim<T>>, b: seq<Claim<T>>, c: Claim<T>, t: nat)
    ensures ByProducer([c], t) == if c.tid == t then [c.value] else []
    ensures ByProducer(a + b, t) == ByProducer(a, t) + ByProducer(b, t)
  {
    assert [c][..0] == [];
    if b == [] {
      assert a + b == a;
    } else {
      ByProducerConcat(a, b[..|b| - 1], c, t);
      assert (a + b)[..|a + b| - 1] == a + b[..|b| - 1];
    }
  }

  /** A value in flight has not come out: what came out is of finished pushes only. */
  lemma PoppedWasReturned<T>(st: State<T>, t: nat)
    requires Inv(st)
    ensures ByProducer(st.claims[..|st.popped|], t) <= ByProducer(st.returned, t)
  {
    assert HistoryAgrees(st, t);
    if Holding(Local(st, t)) {
      HolderInWindow(st, t);
      ByProducerMissing(st.claims, |st.popped|, Local(st, t).pos, t);
    }
    ByProducerPrefix(st.claims, |st.popped|, t);
  }

  /** Each producer's values come out in the order of its own pushes, and none before its push returned. */
  lemma ProducerOrderKept<T>(st: State<T>, acts: seq<Action<T>>, t: nat)
    requires Initial(st) && Capacity(st) >= 2
    ensures var end := Exec(st, acts);
            && |end.popped| <= |end.claims|
            && end.popped == Values(end.claims[..|end.popped|])
            && ByProducer(end.claims[..|end.popped|], t) <= ByProducer(end.returned, t)
  {
    ReachableInv(st, acts);
    PoppedWasReturned(Exec(st, acts), t);
  }

  /** The order of claims is never revised, only extended. */
  lemma {:induction false} ClaimsOnlyGrow<T>(st: State<T>, acts: seq<Action<T>>)
    requires Inv(st)
    ensures st.claims <= Exec(st, acts).claims
  {
    if acts == [] {
    } else {
      var before, a := acts[..|acts| - 1], acts[|acts| - 1];
      ClaimsOnlyGrow(st, before);
      assert Exec(st, before).claims <= Step(Exec(st, before), a).claims;
    }
  }

  /**
   Order across producers: what was claimed by some moment is in the log before anything claimed
   later, and comes out before it. A producer between calls then has its returned pushes there, so a
   push that returned before another began comes out first.
   */
  lemma RealTimeOrderKept<T>(st: State<T>, first: seq<Action<T>>, second: seq<Action<T>>, t: nat)
    requires Initial(st) && Capacity(st) >= 2
    ensures var mid, end := Exec(st, first), Exec(st, first + second);
            && mid.claims <= end.claims
            && (end.popped <= Values(mid.claims) || Values(mid.claims) <= end.popped)
            && ByProducer(mid.returned, t) <= ByProducer(mid.claims, t)
            && (Local(mid, t).Idle? ==> ByProducer(mid.returned, t) == ByProducer(mid.claims, t))
  {
    var mid := Exec(st, first);
    ReachableInv(st, first);
    ReachableInv(st, first + second);
    ExecConcat(st, first, second);
    ClaimsOnlyGrow(mid, second);
    assert HistoryAgrees(mid, t);
  }

  // ----- Refusals -----

  /** The probing producer is about to return false. */
  predicate PushRefuses<T>(st: State<T>, t: nat)
    requires Sized(st)
  {
    Local(st, t).Probing? && Local(StepProducer(st, t, false), t).Idle?
  }

  /** Push returns false exactly when its position is one lap ahead of the consumer; then the ring is full. */
  lemma PushRefusesOnlyWhenFull<T>(st: State<T>, t: nat)
    requires Inv(st) && Local(st, t).Probing?
    ensures PushRefuses(st, t) <==> Local(st, t).pos == Released(st) + Capacity(st)
    ensures PushRefuses(st, t) ==> |Queue(st)| == Capacity(st) && Local(st, t).pos == st.enqueuePos
  {
    assert ProducerAgrees(st, t);
    CellSeen(st, Local(st, t).pos);
  }

  /** The consumer is about to return nullopt. */
  predicate PopReportsEmpty<T>(st: State<T>, residue: T)
    requires Sized(st)
  {
    st.consumer.Checking? && StepConsumer(st, residue).consumer.Waiting?
  }

  /** Pop reports empty exactly when the head is unpublished: nothing is queued, or its producer is mid-push. */
  lemma PopEmptyMeansUnpublished<T>(st: State<T>, residue: T)
    requires Inv(st) && st.consumer.Checking?
    ensures st.sequence[CellOf(st, st.dequeuePos)] <= st.dequeuePos + 1
    ensures PopReportsEmpty(st, residue) <==> st.dequeuePos !in st.published
    ensures PopReportsEmpty(st, residue) <==>
              || Queue(st) == []
              || Holds(Local(st, st.claims[st.dequeuePos].tid), st.dequeuePos)
  {
    var pos := st.dequeuePos;
    assert st.sequence[CellOf(st, pos)] == if pos in st.published then pos + 1 else pos;
    if pos in st.published {
      var t := st.claims[pos].tid;
      assert ProducerAgrees(st, t);
    }
  }

  /** With no push in progress, pop reports empty exactly when the queue is empty. */
  lemma PopEmptyWhenQuiet<T>(st: State<T>, residue: T)
    requires Inv(st) && st.consumer.Checking?
    requires forall t: nat :: !Holding(Local(st, t))
    ensures PopReportsEmpty(st, residue) <==> Queue(st) == []
  {
    PopEmptyMeansUnpublished(st, residue);
  }

  // ----- Exclusive access -----

  predicate ConsumerTouches<T>(st: State<T>, pos: nat) {
    (st.consumer.Reading? || st.consumer.Releasing?) && st.consumer.pos == pos
  }

  /** A claimed cell belongs to its producer alone: no other producer and not the consumer is in it. */
  lemma CellsAreExclusive<T>(st: State<T>, t: nat, u: nat)
    requires Inv(st) && Holding(Local(st, t))
    ensures u != t && Holding(Local(st, u)) ==> CellOf(st, Local(st, u).pos) != CellOf(st, Local(st, t).pos)
    ensures st.consumer.Reading? || st.consumer.Releasing? ==>
              CellOf(st, st.consumer.pos) != CellOf(st, Local(st, t).pos)
  {
    if u != t && Holding(Local(st, u)) {
      OtherHolder(st, t, u);
    }
    HolderInWindow(st, t);
    OtherCells(st, Local(st, t).pos);
  }

  /** A published value stays in its cell until the consumer itself takes it. */
  lemma PublishedValueIsStable<T>(st: State<T>, a: Action<T>, pos: nat)
    requires Inv(st) && pos in st.published && Taken(st) <= pos
    ensures pos < |st.claims| && st.data[CellOf(st, pos)] == st.claims[pos].value
    ensures (a.Consume? && ConsumerTouches(st, pos)) ||
            Step(st, a).data[CellOf(st, pos)] == st.data[CellOf(st, pos)]
  {
    match a
    case Begin(_, _) =>
    case Advance(t, _) =>
      if Local(st, t).Writing? {
        HolderInWindow(st, t);
        OtherCells(st, Local(st, t).pos);
      }
    case Consume(_) =>
      if st.consumer.Reading? {
        OtherCells(st, st.consumer.pos);
      }
  }

  // ----- Retries -----

  /** Going round the loop without a spurious failure means another producer claimed meanwhile. */
  lemma RetryMeansProgress<T>(st: State<T>, t: nat, spurious: bool)
    requires Inv(st) && (Local(st, t).Claiming? || Local(st, t).Reloading?)
    requires Local(StepProducer(st, t, spurious), t).Probing?
    ensures var p, p' := Local(st, t), Local(StepProducer(st, t, spurious), t);
            && (p'.pos > p.pos || (p'.pos == p.pos && p'.call.spurious == p.call.spurious + 1))
            && forall i :: p.call.start <= i < p'.pos ==> i < |st.claims| && st.claims[i].tid != t
  {
    assert ProducerAgrees(st, t);
  }

  predicate InLoop<T>(p: Producer<T>) {
    p.Probing? || p.Claiming? || p.Reloading? || p.Writing? || p.Publishing?
  }

  /** The turns of the loop this call has begun; a probing producer is about to load the sequence for the next one. */
  function Iterations<T>(p: Producer<T>): nat
    requires InLoop(p)
  {
    p.call.loads + if p.Probing? then 1 else 0
  }

  /** At any moment of any run: iterations <= 1 + claims of others since the call began + spurious failures. */
  lemma LoopIterationsArePaidFor<T>(st: State<T>, acts: seq<Action<T>>, t: nat)
    requires Initial(st) && Capacity(st) >= 2
    requires InLoop(Local(Exec(st, acts), t))
    ensures var end := Exec(st, acts);
            var p := Local(end, t);
            && p.call.start <= p.pos <= |end.claims|
            && Iterations(p) <= 1 + |end.claims[p.call.start..p.pos]| + p.call.spurious
            && forall i :: p.call.start <= i < p.pos ==> end.claims[i].tid != t
  {
    ReachableInv(st, acts);
    assert ProducerAgrees(Exec(st, acts), t);
  }

  /** A call about to return false has gone round for no more than that, over all claims since it began. */
  lemma RefusedCallIsPaidFor<T>(st: State<T>, acts: seq<Action<T>>, t: nat)
    requires Initial(st) && Capacity(st) >= 2
    requires PushRefuses(Exec(st, acts), t)
    ensures var end := Exec(st, acts);
            var call := Local(end, t).call;
            && call.start <= |end.claims| && |Queue(end)| == Capacity(end)
            && call.loads + 1 <= 1 + |end.claims[call.start..]| + call.spurious
            && forall i :: call.start <= i < |end.claims| ==> end.claims[i].tid != t
  {
    LoopIterationsArePaidFor(st, acts, t);
    ReachableInv(st, acts);
    PushRefusesOnlyWhenFull(Exec(st, acts), t);
  }

  // ----- Running alone -----

  /** `n` operations of producer `t` with nobody interfering. */
  function Solo<T>(st: State<T>, t: nat, n: nat): (end: State<T>)
    requires Sized(st)
    ensures Sized(end)
    decreases n
  {
    if n == 0 then st else Solo(StepProducer(st, t, false), t, n - 1)
  }

  function SoloPop<T>(st: State<T>, residue: T, n: nat): (end: State<T>)
    requires Sized(st)
    ensures Sized(end)
    decreases n
  {
    if n == 0 then st else SoloPop(StepConsumer(st, residue), residue, n - 1)
  }

  /** The push ended, returned true, and appended exactly its value to the queue. */
  ghost predicate PushedOnto<T>(st: State<T>, end: State<T>, t: nat, value: T) {
    && Inv(end) && Local(end, t).Idle?
    && Queue(end) == Queue(st) + [value]
    && end.returned == st.returned + [Claim(t, value)]
  }

  /** The push ended, returned false, left the queue alone, and the queue was full. */
  ghost predicate RefusedBy<T>(st: State<T>, end: State<T>, t: nat) {
    && Inv(end) && Local(end, t).Idle?
    && Queue(end) == Queue(st) && |Queue(st)| == Capacity(st)
    && end.returned == st.returned
  }

  lemma ReturnsOnPublish<T>(st: State<T>, t: nat)
    requires Sized(st)
    ensures StepProducer(st, t, false).returned ==
            st.returned + if Local(st, t).Publishing? then [Claim(t, Local(st, t).call.value)] else []
    ensures StepProducer(st, t, false).consumer == st.consumer && StepProducer(st, t, false).dequeuePos == st.dequeuePos
    ensures !ClaimSucceeds(st, t, false) ==> StepProducer(st, t, false).claims == st.claims
  {
  }

  lemma SoloStep<T>(st: State<T>, t: nat)
    requires Inv(st)
    ensures Inv(StepProducer(st, t, false))
    ensures Queue(StepProducer(st, t, false)) ==
            Queue(st) + if ClaimSucceeds(st, t, false) then [Local(st, t).call.value] else []
    ensures StepProducer(st, t, false).returned ==
            st.returned + if Local(st, t).Publishing? then [Claim(t, Local(st, t).call.value)] else []
  {
    var next := StepProducer(st, t, false);
    assert next == Step(st, Advance(t, false));
    StepInv(st, Advance(t, false));
    ReturnsOnPublish(st, t);
    if ClaimSucceeds(st, t, false) {
      ClaimEnqueues(st, t);
    } else {
      assert Released(next) == Released(st);
    }
  }

  /** The push ended and returned true; its value was in the queue already. */
  ghost predicate CompletesAs<T>(st: State<T>, end: State<T>, t: nat, value: T) {
    && Inv(end) && Local(end, t).Idle?
    && Queue(end) == Queue(st) && end.returned == st.returned + [Claim(t, value)]
  }

  lemma SoloPublish<T>(st: State<T>, t: nat)
    requires Inv(st) && Local(st, t).Publishing?
    ensures CompletesAs(st, Solo(st, t, 1), t, Local(st, t).call.value)
  {
    SoloStep(st, t);
    assert Solo(st, t, 1) == Solo(StepProducer(st, t, false), t, 0);
  }

  lemma SoloWrite<T>(st: State<T>, t: nat)
    requires Inv(st) && Local(st, t).Writing?
    ensures CompletesAs(st, Solo(st, t, 2), t, Local(st, t).call.value)
  {
    SoloStep(st, t);
    SoloPublish(StepProducer(st, t, false), t);
  }

  lemma SoloClaim<T>(st: State<T>, t: nat)
    requires Inv(st) && Local(st, t).Claiming? && Local(st, t).pos == st.enqueuePos
    ensures PushedOnto(st, Solo(st, t, 3), t, Local(st, t).call.value)
  {
    SoloStep(st, t);
    SoloWrite(StepProducer(st, t, false), t);
  }

  /** A producer that has seen the latest counter finishes its call in four operations. */
  lemma SoloProbe<T>(st: State<T>, t: nat)
    requires Inv(st) && Local(st, t).Probing? && Local(st, t).pos == st.enqueuePos
    ensures if |Queue(st)| < Capacity(st) then PushedOnto(st, Solo(st, t, 4), t, Local(st, t).call.value)
            else RefusedBy(st, Solo(st, t, 4), t)
  {
    SoloStep(st, t);
    var next := StepProducer(st, t, false);
    CellSeen(st, st.enqueuePos);
    if |Queue(st)| < Capacity(st) {
      SoloClaim(next, t);
    } else {
      SoloIdle(next, t, 3);
    }
  }

  lemma {:induction false} SoloIdle<T>(st: State<T>, t: nat, n: nat)
    requires Sized(st) && Local(st, t).Idle?
    ensures Solo(st, t, n) == st
  {
    if n == 0 {
    } else {
      SoloIdle(st, t, n - 1);
    }
  }

  lemma {:induction false} SoloMore<T>(st: State<T>, t: nat, n: nat, m: nat)
    requires Sized(st) && n <= m && Local(Solo(st, t, n), t).Idle?
    ensures Solo(st, t, m) == Solo(st, t, n)
    decreases n
  {
    if n == 0 {
      SoloIdle(st, t, m);
    } else {
      SoloMore(StepProducer(st, t, false), t, n - 1, m - 1);
    }
  }

  lemma SoloEnter<T>(st: State<T>, t: nat)
    requires Inv(st) && Local(st, t).Entering?
    ensures if |Queue(st)| < Capacity(st) then PushedOnto(st, Solo(st, t, 5), t, Local(st, t).argument)
            else RefusedBy(st, Solo(st, t, 5), t)
  {
    SoloStep(st, t);
    SoloProbe(StepProducer(st, t, false), t);
  }

  /** An uncontended push is the FIFO's enqueue: it takes effect if there is room and refuses otherwise. */
  lemma UncontendedPush<T>(st: State<T>, t: nat, value: T)
    requires Inv(st) && Local(st, t).Idle?
    ensures var end := Solo(Step(st, Begin(t, value)), t, 5);
            if |Queue(st)| < Capacity(st) then PushedOnto(st, end, t, value) else RefusedBy(st, end, t)
  {
    StepInv(st, Begin(t, value));
    SoloEnter(Step(st, Begin(t, value)), t);
  }

  lemma SoloReload<T>(st: State<T>, t: nat)
    requires Inv(st) && Local(st, t).Reloading?
    ensures Local(Solo(st, t, 5), t).Idle?
  {
    SoloStep(st, t);
    SoloProbe(StepProducer(st, t, false), t);
  }

  lemma SoloStaleClaim<T>(st: State<T>, t: nat)
    requires Inv(st) && Local(st, t).Claiming? && Local(st, t).pos != st.enqueuePos
    ensures Local(Solo(st, t, 5), t).Idle?
  {
    SoloStep(st, t);
    SoloProbe(StepProducer(st, t, false), t);
  }

  lemma SoloStaleProbe<T>(st: State<T>, t: nat)
    requires Inv(st) && Local(st, t).Probing? && Local(st, t).pos != st.enqueuePos
    ensures Local(Solo(st, t, 6), t).Idle?
  {
    SoloStep(st, t);
    var next := StepProducer(st, t, false);
    if Local(next, t).Reloading? {
      SoloReload(next, t);
    } else if Local(next, t).Claiming? {
      SoloStaleClaim(next, t);
    } else {
      SoloMore(next, t, 0, 5);
    }
  }

  /** From any reachable state, however stale its registers, a producer left alone finishes within six operations. */
  lemma PushNeverWaits<T>(st: State<T>, t: nat)
    requires Inv(st)
    ensures Local(Solo(st, t, 6), t).Idle?
  {
    match Local(st, t) {
      case Idle => SoloIdle(st, t, 6);
      case Entering(_) =>
        SoloEnter(st, t);
        SoloMore(st, t, 5, 6);
      case Probing(_, pos) =>
        if pos == st.enqueuePos {
          SoloProbe(st, t);
          SoloMore(st, t, 4, 6);
        } else {
          SoloStaleProbe(st, t);
        }
      case Claiming(_, pos) =>
        if pos == st.enqueuePos {
          SoloClaim(st, t);
          SoloMore(st, t, 3, 6);
        } else {
          SoloStaleClaim(st, t);
          SoloMore(st, t, 5, 6);
        }
      case Reloading(_, _) =>
        SoloReload(st, t);
        SoloMore(st, t, 5, 6);
      case Writing(_, _) =>
        SoloWrite(st, t);
        SoloMore(st, t, 2, 6);
      case Publishing(_, _) =>
        SoloPublish(st, t);
        SoloMore(st, t, 1, 6);
    }
  }

  lemma PopFromReading<T>(st: State<T>, residue: T)
    requires Inv(st) && st.consumer.Reading?
    ensures var end := SoloPop(st, residue, 3);
            && Inv(end) && end.consumer.Waiting? && |Queue(st)| > 0
            && Queue(end) == Queue(st)[1..] && end.popped == st.popped + [Queue(st)[0]]
  {
    var s1 := StepConsumer(st, residue);
    ReadInv(st, residue);
    PopFromReleasing(s1, residue);
    assert SoloPop(st, residue, 3) == SoloPop(s1, residue, 2);
  }

  lemma PopFromReleasing<T>(st: State<T>, residue: T)
    requires Inv(st) && st.consumer.Releasing?
    ensures var end := SoloPop(st, residue, 2);
            && Inv(end) && end.consumer.Waiting? && |Queue(st)| > 0
            && Queue(end) == Queue(st)[1..] && end.popped == st.popped + [Queue(st)[0]]
  {
    ReleaseInv(st, residue);
    ReleaseDequeues(st, residue);
    var s1 := StepConsumer(st, residue);
    AdvanceInv(s1, residue);
    assert SoloPop(s1, residue, 1) == SoloPop(StepConsumer(s1, residue), residue, 0);
  }

  /** An uncontended pop is the FIFO's dequeue whenever the head is published, and changes nothing otherwise. */
  lemma UncontendedPop<T>(st: State<T>, residue: T)
    requires Inv(st) && st.consumer.Waiting?
    ensures st.dequeuePos in st.published ==>
              var end := SoloPop(st, residue, 5);
              && Inv(end) && end.consumer.Waiting? && |Queue(st)| > 0
              && Queue(end) == Queue(st)[1..] && end.popped == st.popped + [Queue(st)[0]]
    ensures st.dequeuePos !in st.published ==> SoloPop(st, residue, 2) == st
  {
    var s1 := StepConsumer(st, residue);
    CheckInv(st, residue);
    PopEmptyMeansUnpublished(s1, residue);
    var s2 := StepConsumer(s1, residue);
    CheckInv(s1, residue);
    assert SoloPop(s1, residue, 1) == SoloPop(s2, residue, 0);
    if st.dequeuePos in st.published {
      PopFromReading(s2, residue);
      assert SoloPop(st, residue, 5) == SoloPop(s1, residue, 4);
    } else {
      assert s2 == st;
    }
  }

  lemma {:induction false} SoloPopFrame<T>(st: State<T>, residue: T, n: nat)
    requires Sized(st)
    ensures SoloPop(st, residue, n).producers == st.producers && SoloPop(st, residue, n).claims == st.claims
    decreases n
  {
    if n == 0 {
    } else {
      SoloPopFrame(StepConsumer(st, residue), residue, n - 1);
    }
  }

  predicate Quiet<T>(st: State<T>) {
    forall t :: t in st.producers ==> !Holding(st.producers[t])
  }

  /** Between pops, with no push in progress. */
  ghost predicate Resting<T>(st: State<T>) {
    Inv(st) && st.consumer.Waiting? && Quiet(st)
  }

  /** The first `n` queued values, and only those, have been returned, in order. */
  predicate DeliversTo<T(==)>(st: State<T>, end: State<T>, n: nat) {
    n <= |Queue(st)| && Queue(end) == Queue(st)[n..] && end.popped == st.popped + Queue(st)[..n]
  }

  lemma PopOne<T>(st: State<T>, residue: T)
    requires Resting(st) && Queue(st) != []
    ensures Resting(SoloPop(st, residue, 5)) && DeliversTo(st, SoloPop(st, residue, 5), 1)
  {
    assert st.dequeuePos !in st.published ==> Holds(Local(st, st.claims[st.dequeuePos].tid), st.dequeuePos);
    UncontendedPop(st, residue);
    SoloPopFrame(st, residue, 5);
  }

  lemma OneThenMore<T>(st: State<T>, next: State<T>, end: State<T>, n: nat)
    requires DeliversTo(st, next, 1) && DeliversTo(next, end, n)
    ensures DeliversTo(st, end, n + 1)
  {
    var q := Queue(st);
    assert q[1..][n..] == q[n + 1..];
    assert q[..1] + q[1..][..n] == q[..n + 1];
  }

  /** `n` pops one after the other, nobody interfering, of five operations each. */
  function Pops<T>(st: State<T>, residue: T, n: nat): (end: State<T>)
    requires Sized(st)
    ensures Sized(end)
    decreases n
  {
    if n == 0 then st else Pops(SoloPop(st, residue, 5), residue, n - 1)
  }

  /** With no push in progress, each pop delivers one more of the queued values, in order. */
  lemma {:induction false} PopsDeliver<T>(st: State<T>, residue: T, n: nat)
    requires Resting(st) && n <= |Queue(st)|
    ensures Resting(Pops(st, residue, n)) && DeliversTo(st, Pops(st, residue, n), n)
    decreases n
  {
    if n == 0 {
    } else {
      PopOne(st, residue);
      var next := SoloPop(st, residue, 5);
      PopsDeliver(next, residue, n - 1);
      OneThenMore(st, next, Pops(next, residue, n - 1), n - 1);
    }
  }

  lemma DeliversAll<T>(st: State<T>, end: State<T>)
    requires DeliversTo(st, end, |Queue(st)|)
    ensures Queue(end) == [] && end.popped == st.popped + Queue(st)
  {
    assert Queue(st)[..|Queue(st)|] == Queue(st);
  }

  lemma RestingClaims<T>(st: State<T>)
    requires Resting(st)
    ensures st.popped + Queue(st) == Values(st.claims)
  {
    ClaimedIsDeliveredThenQueued(st);
    assert Delivered(st) == st.popped;
  }

  /** A pop for each queued value delivers everything ever claimed and leaves the queue empty. */
  lemma PopsDeliverEverything<T>(st: State<T>, residue: T)
    requires Resting(st)
    ensures var end := Pops(st, residue, |Queue(st)|);
            Resting(end) && Queue(end) == [] && end.popped == st.popped + Queue(st) == Values(st.claims)
  {
    PopsDeliver(st, residue, |Queue(st)|);
    DeliversAll(st, Pops(st, residue, |Queue(st)|));
    RestingClaims(st);
  }

  // ----- 64-bit counters -----

  /** Push takes the model's branch on wrapped counters, unless it slept through 2^63 - Capacity claims. */
  lemma PushBranchOnWords<T>(st: State<T>, t: nat)
    requires Inv(st) && Local(st, t).Probing?
    requires Capacity(st) < WORD / 2 && st.enqueuePos - Local(st, t).pos < WORD / 2 - Capacity(st)
    ensures var pos := Local(st, t).pos;
            var diff := SignedDiff(Word(st.sequence[CellOf(st, pos)]), Word(pos));
            && Slot(Capacity(st), Word(pos)) == CellOf(st, pos)
            && (diff == 0 <==> Local(StepProducer(st, t, false), t).Claiming?)
            && (diff < 0 <==> Local(StepProducer(st, t, false), t).Idle?)
            && (diff > 0 <==> Local(StepProducer(st, t, false), t).Reloading?)
  {
    var pos := Local(st, t).pos;
    assert ProducerAgrees(st, t);
    CellSeen(st, pos);
    SlotSurvivesWrap(Capacity(st), pos);
    SignedDiffIsTrueDiff(st.sequence[CellOf(st, pos)], pos);
  }

  /** The compare-exchange on wrapped counters is the model's, unless the producer slept through 2^64 claims. */
  lemma CompareExchangeOnWords<T>(st: State<T>, t: nat, spurious: bool)
    requires Inv(st) && Local(st, t).Claiming? && st.enqueuePos - Local(st, t).pos < WORD
    ensures var equal := Word(st.enqueuePos) == Word(Local(st, t).pos);
            && (equal <==> st.enqueuePos == Local(st, t).pos)
            && (equal && !spurious <==> Local(StepProducer(st, t, spurious), t).Writing?)
  {
    assert ProducerAgrees(st, t);
    EqualWords(st.enqueuePos, Local(st, t).pos);
  }

  /** The test pop makes on wrapped counters is the model's, without any bound on how far the counters have run. */
  lemma PopBranchOnWords<T>(st: State<T>, residue: T)
    requires Inv(st) && st.consumer.Checking? && Capacity(st) < WORD / 2
    ensures var pos := st.consumer.pos;
            var diff := SignedDiff(Word(st.sequence[CellOf(st, pos)]), Word(pos + 1));
            && Slot(Capacity(st), Word(pos)) == CellOf(st, pos)
            && (diff != 0 <==> PopReportsEmpty(st, residue))
  {
    var pos := st.consumer.pos;
    SlotSurvivesWrap(Capacity(st), pos);
    PopEmptyMeansUnpublished(st, residue);
    assert st.sequence[CellOf(st, pos)] == if pos in st.published then pos + 1 else pos;
    SignedDiffIsTrueDiff(st.sequence[CellOf(st, pos)], pos + 1);
  }

  // ----- The smallest capacity -----

  /** No schedule ever has more claims outstanding than there are cells. */
  ghost predicate NeverOverfull(capacity: nat) {
    forall st: State<int>, acts: seq<Action<int>> :: Initial(st) && Capacity(st) == capacity ==>
      Exec(st, acts).enqueuePos <= Released(Exec(st, acts)) + capacity
  }

  function AloneSchedule<T>(t: nat, n: nat): seq<Action<T>> {
    if n == 0 then [] else [Advance(t, false)] + AloneSchedule(t, n - 1)
  }

  /** Running alone is running under a schedule that never picks anyone else. */
  lemma {:induction false} SoloIsARun<T>(st: State<T>, t: nat, n: nat)
    requires Sized(st)
    ensures Solo(st, t, n) == Exec(st, AloneSchedule(t, n))
    decreases n
  {
    if n == 0 {
    } else {
      var first: seq<Action<T>> := [Advance(t, false)];
      SoloIsARun(StepProducer(st, t, false), t, n - 1);
      ExecConcat(st, first, AloneSchedule(t, n - 1));
      assert Exec(st, first) == Step(st, Advance(t, false));
    }
  }

  lemma CallAlone<T>(st: State<T>, t: nat, value: T, n: nat)
    requires Sized(st)
    ensures Exec(st, [Begin(t, value)] + AloneSchedule(t, n)) == Solo(Step(st, Begin(t, value)), t, n)
  {
    var begin: seq<Action<T>> := [Begin(t, value)];
    assert Exec(st, begin) == Step(st, Begin(t, value));
    ExecConcat(st, begin, AloneSchedule(t, n));
    SoloIsARun(Step(st, Begin(t, value)), t, n);
  }

  /** A producer that has claimed and not yet stored leaves its value queued but unpublished. */
  lemma ClaimedFirst<T>(st: State<T>, t: nat, value: T)
    requires Initial(st) && Capacity(st) >= 2
    ensures var end := Solo(Step(st, Begin(t, value)), t, 3);
            && end.claims == [Claim(t, value)] && end.published == {}
            && end.consumer == Waiting && end.dequeuePos == 0
  {
    var s0 := Step(st, Begin(t, value));
    var s1 := StepProducer(s0, t, false);
    var s2 := StepProducer(s1, t, false);
    var s3 := StepProducer(s2, t, false);
    InitialInv(st);
    CellSeen(st, 0);
    assert s2.enqueuePos == 0 && Local(s2, t).Claiming?;
    assert Solo(s0, t, 3) == Solo(s1, t, 2) == Solo(s2, t, 1) == Solo(s3, t, 0);
  }

  /** On every ring of at least two cells, pop can report empty with a value queued: its producer is mid-push. */
  lemma EmptyWithAValueQueued<T>(st: State<T>, t: nat, value: T, residue: T)
    requires Initial(st) && Capacity(st) >= 2
    ensures var end := Exec(st, [Begin(t, value)] + AloneSchedule(t, 3) + [Consume(residue)]);
            Queue(end) == [value] && PopReportsEmpty(end, residue)
  {
    var acts: seq<Action<T>> := [Begin(t, value)] + AloneSchedule(t, 3);
    CallAlone(st, t, value, 3);
    ClaimedFirst(st, t, value);
    ExecSnoc(st, acts, Consume(residue));
    ReachableInv(st, acts + [Consume(residue)]);
    PopEmptyMeansUnpublished(Exec(st, acts + [Consume(residue)]), residue);
  }

  /** A ring with one cell whose content is published but whose sequence equals the next position. */
  ghost predicate SingleCellFree<T>(st: State<T>) {
    Sized(st) && Capacity(st) == 1 && st.sequence == [st.enqueuePos] && st.consumer.Waiting?
  }

  /** With one cell every push is accepted, whether or not the cell was read. */
  lemma SingleCellPush<T>(st: State<T>, t: nat, value: T)
    requires SingleCellFree(st) && Local(st, t).Idle?
    ensures var end := Solo(Step(st, Begin(t, value)), t, 5);
            && SingleCellFree(end) && Local(end, t).Idle?
            && end.enqueuePos == st.enqueuePos + 1 && end.dequeuePos == st.dequeuePos
            && end.returned == st.returned + [Claim(t, value)] && end.popped == st.popped
  {
    var s0 := Step(st, Begin(t, value));
    var s1 := StepProducer(s0, t, false);
    var s2 := StepProducer(s1, t, false);
    var s3 := StepProducer(s2, t, false);
    var s4 := StepProducer(s3, t, false);
    var s5 := StepProducer(s4, t, false);
    var call := Call(value, st.enqueuePos, 1, 0);
    assert Local(s3, t) == Writing(call, st.enqueuePos);
    assert s5.sequence == [st.enqueuePos + 1] && Local(s5, t) == Idle;
    assert Solo(s3, t, 2) == Solo(s4, t, 1) == Solo(s5, t, 0);
    assert Solo(s0, t, 5) == Solo(s1, t, 4) == Solo(s2, t, 3) == Solo(s3, t, 2);
  }

  function PushAlone<T>(t: nat, value: T): seq<Action<T>> {
    [Begin(t, value)] + AloneSchedule(t, 5)
  }

  lemma SingleCellRun<T>(st: State<T>, t: nat, value: T) returns (end: State<T>)
    requires SingleCellFree(st) && Local(st, t).Idle?
    ensures end == Exec(st, PushAlone(t, value))
    ensures SingleCellFree(end) && Local(end, t).Idle?
    ensures end.enqueuePos == st.enqueuePos + 1 && end.dequeuePos == st.dequeuePos
    ensures end.returned == st.returned + [Claim(t, value)] && end.popped == st.popped
  {
    CallAlone(st, t, value, 5);
    SingleCellPush(st, t, value);
    end := Exec(st, PushAlone(t, value));
  }

  lemma SingleCellPop<T>(st: State<T>, residue: T)
    requires SingleCellFree(st) && st.enqueuePos != st.dequeuePos + 1
    ensures PopReportsEmpty(StepConsumer(st, residue), residue)
  {
  }

  function TwoPushes(t: nat): seq<Action<int>> {
    PushAlone(t, 1) + PushAlone(t, 2)
  }

  /** The smallest ring the static assertion admits loses values: two pushes return true and pop finds nothing. */
  lemma OneCellLosesValues(st: State<int>, t: nat, residue: int)
    requires Initial(st) && Capacity(st) == 1
    ensures var end := Exec(st, TwoPushes(t));
            && end.returned == [Claim(t, 1), Claim(t, 2)] && end.popped == []
            && end.enqueuePos == 2 && Released(end) == 0
            && PopReportsEmpty(StepConsumer(end, residue), residue)
  {
    var mid := SingleCellRun(st, t, 1);
    var end := SingleCellRun(mid, t, 2);
    ExecConcat(st, PushAlone(t, 1), PushAlone(t, 2));
    SingleCellPop(end, residue);
  }

  lemma OneCellOverflows(t: nat)
    ensures !NeverOverfull(1)
  {
    var st: State<int> := State(0, 0, [0], [0], map[], Waiting, [], {}, [], []);
    OneCellLosesValues(st, t, 0);
    assert Exec(st, TwoPushes(t)).enqueuePos > Released(Exec(st, TwoPushes(t))) + 1;
  }

  /** Of the capacities the static assertion admits, exactly those of at least two keep the ring from overflowing. */
  lemma CapacityMustBeAtLeastTwo(capacity: nat)
    requires ValidCapacity(capacity)
    ensures NeverOverfull(capacity) <==> capacity >= 2
  {
    if capacity >= 2 {
      forall st: State<int>, acts: seq<Action<int>> | Initial(st) && Capacity(st) == capacity
        ensures Exec(st, acts).enqueuePos <= Released(Exec(st, acts)) + capacity
      {
        ReachableInv(st, acts);
      }
    } else {
      OneCellOverflows(0);
    }
  }
}
