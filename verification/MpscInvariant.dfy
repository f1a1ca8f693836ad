/**
 The inductive invariant of the queue protocol and its preservation by every atomic operation.
 It needs a capacity of at least two; MpscTheorems shows what happens with one.
 */
module MpscInvariant {
  import opened Arithmetic
  import opened RingIndex
  import opened MpscProtocol

  ghost predicate Counters<T>(st: State<T>) {
    && Sized(st) && ValidCapacity(Capacity(st)) && Capacity(st) >= 2
    && |st.claims| == st.enqueuePos
    && Released(st) <= st.enqueuePos <= Released(st) + Capacity(st)
    && st.dequeuePos == |st.popped| <= st.enqueuePos
    && forall i :: 0 <= i < |st.popped| ==> st.popped[i] == st.claims[i].value
  }

  /** Every released position has been published, and only claimed positions are. */
  ghost predicate PublishedRange<T>(st: State<T>) {
    && (forall p :: p in st.published ==> p < st.enqueuePos)
    && (forall p :: 0 <= p < Released(st) ==> p in st.published)
  }

  /** The cell of each position in the current window says whether that position is published. */
  ghost predicate CellsAgree<T>(st: State<T>)
    requires Sized(st)
  {
    forall p: nat :: Released(st) <= p < Released(st) + Capacity(st) ==>
      st.sequence[CellOf(st, p)] == if p in st.published then p + 1 else p
  }

  /** A published value that was not taken yet is in its cell. */
  ghost predicate DataAgrees<T>(st: State<T>)
    requires Sized(st) && |st.claims| == st.enqueuePos
  {
    forall p: nat :: Taken(st) <= p < st.enqueuePos && p in st.published ==>
      st.data[CellOf(st, p)] == st.claims[p].value
  }

  ghost predicate NoClaimsSince<T>(st: State<T>, t: nat, start: nat, end: nat) {
    end <= |st.claims| && forall i :: start <= i < end ==> st.claims[i].tid != t
  }

  /** The loop record: every repeated load was paid for by someone else's claim or a spurious failure. */
  ghost predicate LoopRecord<T>(st: State<T>, t: nat, call: Call<T>, pos: nat, extra: nat, end: nat) {
    && call.start <= pos && NoClaimsSince(st, t, call.start, end)
    && call.loads <= pos - call.start + call.spurious + extra
  }

  ghost predicate ProducerAgrees<T>(st: State<T>, t: nat)
    requires Sized(st) && |st.claims| == st.enqueuePos
  {
    match Local(st, t)
    case Idle => true
    case Entering(_) => true
    case Probing(call, pos) =>
      pos <= st.enqueuePos && LoopRecord(st, t, call, pos, 0, st.enqueuePos)
    case Claiming(call, pos) =>
      && pos <= st.enqueuePos && pos < Released(st) + Capacity(st)
      && LoopRecord(st, t, call, pos, 1, st.enqueuePos)
    case Reloading(call, pos) =>
      pos < st.enqueuePos && LoopRecord(st, t, call, pos, 1, st.enqueuePos)
    case Writing(call, pos) =>
      && pos < st.enqueuePos && pos !in st.published && st.claims[pos] == Claim(t, call.value)
      && LoopRecord(st, t, call, pos, 1, pos)
    case Publishing(call, pos) =>
      && pos < st.enqueuePos && pos !in st.published && st.claims[pos] == Claim(t, call.value)
      && LoopRecord(st, t, call, pos, 1, pos)
      && st.data[CellOf(st, pos)] == call.value
  }

  ghost predicate ConsumerAgrees<T>(st: State<T>)
    requires |st.claims| == st.enqueuePos
  {
    match st.consumer
    case Waiting => true
    case Checking(pos) => pos == st.dequeuePos
    case Reading(pos) => pos == st.dequeuePos && pos in st.published && pos < st.enqueuePos
    case Releasing(pos, result) =>
      pos == st.dequeuePos && pos in st.published && pos < st.enqueuePos && result == st.claims[pos].value
    case Advancing(pos, result) =>
      pos == st.dequeuePos && pos in st.published && pos < st.enqueuePos && result == st.claims[pos].value
  }

  /** Every claimed position that is not published is still held by the producer that claimed it. */
  ghost predicate Owned<T>(st: State<T>)
    requires |st.claims| == st.enqueuePos
  {
    forall p: nat :: p < st.enqueuePos && p !in st.published ==> Holds(Local(st, st.claims[p].tid), p)
  }

  /** A producer's claims are its pushes that returned true, in order, and then the one in flight. */
  ghost predicate HistoryAgrees<T>(st: State<T>, t: nat) {
    ByProducer(st.claims, t) == ByProducer(st.returned, t) + InFlight(Local(st, t))
  }

  ghost predicate Inv<T>(st: State<T>) {
    && Counters(st)
    && PublishedRange(st)
    && CellsAgree(st)
    && DataAgrees(st)
    && ConsumerAgrees(st)
    && Owned(st)
    && (forall t: nat :: ProducerAgrees(st, t))
    && (forall t: nat :: HistoryAgrees(st, t))
  }

  lemma InitialInv<T>(st: State<T>)
    requires Initial(st) && Capacity(st) >= 2
    ensures Inv(st)
  {
    forall p: nat | p < Capacity(st)
      ensures st.sequence[CellOf(st, p)] == p
    {
      SlotIsRemainder(Capacity(st), p);
      ModUnique(p, Capacity(st), 0, p);
    }
  }

  // ----- What a producer sees when it loads a cell's sequence -----

  /** At or below the claim counter, a cell is free, behind only when the ring is full, ahead only when claimed. */
  lemma CellSeen<T>(st: State<T>, pos: nat)
    requires Inv(st) && pos <= st.enqueuePos
    ensures var seen := st.sequence[CellOf(st, pos)];
            && (seen == pos ==> Released(st) <= pos < Released(st) + Capacity(st) && pos !in st.published)
            && (seen < pos <==> pos == Released(st) + Capacity(st))
            && (seen > pos ==> pos < st.enqueuePos)
            && seen <= Released(st) + Capacity(st)
            && seen >= Released(st)
  {
    var base, cap := Released(st), Capacity(st);
    var p := WindowPosition(cap, base, pos);
    assert st.sequence[CellOf(st, p)] == if p in st.published then p + 1 else p;
    if base <= pos < base + cap && p != pos {
      SlotDistinct(cap, p, pos);
    } else if pos == base + cap && p != base {
      SlotDistinct(cap, p, pos);
    }
  }

  /** Positions of the window other than `pos` are not disturbed by a store to the cell of `pos`. */
  lemma OtherCells<T>(st: State<T>, pos: nat)
    requires Sized(st) && ValidCapacity(Capacity(st))
    requires Released(st) <= pos < Released(st) + Capacity(st)
    ensures forall p: nat :: Released(st) <= p < Released(st) + Capacity(st) && p != pos ==>
              CellOf(st, p) != CellOf(st, pos)
  {
    forall p: nat | Released(st) <= p < Released(st) + Capacity(st) && p != pos
      ensures CellOf(st, p) != CellOf(st, pos)
    {
      SlotDistinct(Capacity(st), p, pos);
    }
  }

  lemma ByProducerSnoc<T>(log: seq<Claim<T>>, c: Claim<T>, t: nat)
    ensures ByProducer(log + [c], t) == ByProducer(log, t) + if c.tid == t then [c.value] else []
  {
    assert (log + [c])[..|log|] == log;
  }

  // ----- Steps that only move one producer between its reads -----

  /** A producer that neither claims nor holds anything may change its registers freely. */
  lemma MoveInv<T>(st: State<T>, t: nat, p: Producer<T>)
    requires Inv(st)
    requires !Holding(Local(st, t)) && !Holding(p)
    requires ProducerAgrees(Goto(st, t, p), t)
    ensures Inv(Goto(st, t, p))
  {
    var st' := Goto(st, t, p);
    forall u: nat
      ensures ProducerAgrees(st', u)
      ensures HistoryAgrees(st', u)
    {
      assert HistoryAgrees(st, u);
      if u != t {
        assert Local(st', u) == Local(st, u);
        assert ProducerAgrees(st, u);
      }
    }
  }

  /** What the producer writes down after loading the sequence fits the state. */
  lemma ProbeRegisters<T>(st: State<T>, t: nat) returns (p: Producer<T>)
    requires Inv(st) && Local(st, t).Probing?
    ensures StepProducer(st, t, false) == Goto(st, t, p) && !Holding(p)
    ensures ProducerAgrees(Goto(st, t, p), t)
  {
    var Probing(call, pos) := Local(st, t);
    assert ProducerAgrees(st, t);
    CellSeen(st, pos);
    var call' := call.(loads := call.loads + 1);
    var seen := st.sequence[CellOf(st, pos)];
    if seen == pos {
      p := Claiming(call', pos);
    } else if seen < pos {
      p := Idle;
    } else {
      p := Reloading(call', pos);
    }
  }

  lemma ProbeInv<T>(st: State<T>, t: nat)
    requires Inv(st) && Local(st, t).Probing?
    ensures Inv(StepProducer(st, t, false))
  {
    var p := ProbeRegisters(st, t);
    MoveInv(st, t, p);
  }

  // ----- The compare-exchange -----

  lemma ClaimProducers<T>(st: State<T>, t: nat, u: nat)
    requires Inv(st) && Local(st, t).Claiming? && st.enqueuePos == Local(st, t).pos
    ensures |StepProducer(st, t, false).claims| == StepProducer(st, t, false).enqueuePos
    ensures ProducerAgrees(StepProducer(st, t, false), u)
  {
    var st' := StepProducer(st, t, false);
    assert ProducerAgrees(st, t) && ProducerAgrees(st, u);
    if u != t {
      assert Local(st', u) == Local(st, u);
    }
  }

  lemma ClaimHistory<T>(st: State<T>, t: nat, u: nat)
    requires Inv(st) && Local(st, t).Claiming? && st.enqueuePos == Local(st, t).pos
    ensures HistoryAgrees(StepProducer(st, t, false), u)
  {
    ByProducerSnoc(st.claims, Claim(t, Local(st, t).call.value), u);
    assert HistoryAgrees(st, u);
  }

  lemma ClaimOwned<T>(st: State<T>, t: nat)
    requires Inv(st) && Local(st, t).Claiming? && st.enqueuePos == Local(st, t).pos
    ensures |StepProducer(st, t, false).claims| == StepProducer(st, t, false).enqueuePos
    ensures Owned(StepProducer(st, t, false))
  {
    var st' := StepProducer(st, t, false);
    forall p: nat | p < st'.enqueuePos && p !in st'.published
      ensures Holds(Local(st', st'.claims[p].tid), p)
    {
      if p < st.enqueuePos {
        assert Holds(Local(st, st.claims[p].tid), p);
      }
    }
  }

  lemma ClaimInv<T>(st: State<T>, t: nat)
    requires Inv(st) && Local(st, t).Claiming? && st.enqueuePos == Local(st, t).pos
    ensures Inv(StepProducer(st, t, false))
  {
    var st' := StepProducer(st, t, false);
    assert ProducerAgrees(st, t);
    ClaimOwned(st, t);
    forall u: nat ensures ProducerAgrees(st', u) && HistoryAgrees(st', u) {
      ClaimProducers(st, t, u);
      ClaimHistory(st, t, u);
    }
  }

  lemma CompareExchangeInv<T>(st: State<T>, t: nat, spurious: bool)
    requires Inv(st) && Local(st, t).Claiming?
    ensures Inv(StepProducer(st, t, spurious))
  {
    var Claiming(call, pos) := Local(st, t);
    assert ProducerAgrees(st, t);
    if st.enqueuePos == pos && !spurious {
      ClaimInv(st, t);
    } else {
      var call' := if st.enqueuePos == pos then call.(spurious := call.spurious + 1) else call;
      MoveInv(st, t, Probing(call', st.enqueuePos));
    }
  }

  // ----- Writing and publishing a claimed cell -----

  /** Two producers never hold the same position, so a store by one leaves the other's cell alone. */
  lemma OtherHolder<T>(st: State<T>, t: nat, u: nat)
    requires Inv(st) && t != u && Holding(Local(st, t)) && Holding(Local(st, u))
    ensures Local(st, t).pos != Local(st, u).pos
    ensures CellOf(st, Local(st, t).pos) != CellOf(st, Local(st, u).pos)
  {
    assert ProducerAgrees(st, t) && ProducerAgrees(st, u);
    OtherCells(st, Local(st, t).pos);
  }

  lemma HolderInWindow<T>(st: State<T>, t: nat)
    requires Inv(st) && Holding(Local(st, t))
    ensures Released(st) <= Local(st, t).pos < st.enqueuePos
    ensures Local(st, t).pos !in st.published
    ensures st.claims[Local(st, t).pos] == Claim(t, Local(st, t).call.value)
  {
    assert ProducerAgrees(st, t);
  }

  lemma OwnedAfter<T>(st: State<T>, st': State<T>, t: nat)
    requires Inv(st) && Holding(Local(st, t))
    requires st'.claims == st.claims && st'.enqueuePos == st.enqueuePos && st.published <= st'.published
    requires forall u: nat :: u != t ==> Local(st', u) == Local(st, u)
    requires Holds(Local(st', t), Local(st, t).pos) || Local(st, t).pos in st'.published
    ensures Owned(st')
  {
    HolderInWindow(st, t);
    forall p: nat | p < st'.enqueuePos && p !in st'.published
      ensures Holds(Local(st', st'.claims[p].tid), p)
    {
      assert Holds(Local(st, st.claims[p].tid), p);
    }
  }

  lemma WriteProducers<T>(st: State<T>, t: nat, u: nat)
    requires Inv(st) && Local(st, t).Writing?
    ensures ProducerAgrees(StepProducer(st, t, false), u)
    ensures HistoryAgrees(StepProducer(st, t, false), u)
  {
    var st' := StepProducer(st, t, false);
    assert ProducerAgrees(st, u) && HistoryAgrees(st, u);
    if u != t {
      assert Local(st', u) == Local(st, u);
      if Holding(Local(st, u)) {
        OtherHolder(st, t, u);
      }
    }
  }

  lemma WriteCells<T>(st: State<T>, t: nat)
    requires Inv(st) && Local(st, t).Writing?
    ensures CellsAgree(StepProducer(st, t, false)) && DataAgrees(StepProducer(st, t, false))
  {
    HolderInWindow(st, t);
    OtherCells(st, Local(st, t).pos);
    assert forall p: nat :: CellOf(StepProducer(st, t, false), p) == CellOf(st, p);
  }

  lemma WriteInv<T>(st: State<T>, t: nat)
    requires Inv(st) && Local(st, t).Writing?
    ensures Inv(StepProducer(st, t, false))
  {
    var st' := StepProducer(st, t, false);
    HolderInWindow(st, t);
    OwnedAfter(st, st', t);
    WriteCells(st, t);
    forall u: nat ensures ProducerAgrees(st', u) && HistoryAgrees(st', u) {
      WriteProducers(st, t, u);
    }
  }

  lemma PublishOthers<T>(st: State<T>, t: nat, u: nat)
    requires Inv(st) && Local(st, t).Publishing? && u != t
    ensures ProducerAgrees(StepProducer(st, t, false), u)
  {
    var st' := StepProducer(st, t, false);
    assert ProducerAgrees(st, u);
    assert Local(st', u) == Local(st, u);
    if Holding(Local(st, u)) {
      OtherHolder(st, t, u);
      assert st'.data == st.data;
    }
  }

  lemma PublishHistory<T>(st: State<T>, t: nat, u: nat)
    requires Inv(st) && Local(st, t).Publishing?
    ensures HistoryAgrees(StepProducer(st, t, false), u)
  {
    assert HistoryAgrees(st, u);
    ByProducerSnoc(st.returned, Claim(t, Local(st, t).call.value), u);
  }

  lemma PublishCells<T>(st: State<T>, t: nat)
    requires Inv(st) && Local(st, t).Publishing?
    ensures CellsAgree(StepProducer(st, t, false)) && DataAgrees(StepProducer(st, t, false))
  {
    var st' := StepProducer(st, t, false);
    var pos := Local(st, t).pos;
    HolderInWindow(st, t);
    OtherCells(st, pos);
    assert ProducerAgrees(st, t);
    forall p: nat | Released(st') <= p < Released(st') + Capacity(st')
      ensures st'.sequence[CellOf(st', p)] == if p in st'.published then p + 1 else p
    {
      assert st.sequence[CellOf(st, p)] == if p in st.published then p + 1 else p;
    }
  }

  lemma PublishInv<T>(st: State<T>, t: nat)
    requires Inv(st) && Local(st, t).Publishing?
    ensures Inv(StepProducer(st, t, false))
  {
    var st' := StepProducer(st, t, false);
    HolderInWindow(st, t);
    OwnedAfter(st, st', t);
    PublishCells(st, t);
    forall u: nat ensures ProducerAgrees(st', u) && HistoryAgrees(st', u) {
      PublishHistory(st, t, u);
      if u != t {
        PublishOthers(st, t, u);
      }
    }
  }

  // ----- The consumer -----

  /** The consumer's own operations leave the producers' registers and logs alone. */
  lemma ConsumerFrame<T>(st: State<T>, st': State<T>)
    requires Inv(st) && Counters(st')
    requires st'.producers == st.producers && st'.claims == st.claims && st'.enqueuePos == st.enqueuePos
    requires st'.published == st.published && st'.returned == st.returned
    requires |st'.sequence| == |st.sequence| && Released(st) <= Released(st')
    requires forall p: nat :: p < st.enqueuePos && p !in st.published ==>
               st'.data[CellOf(st, p)] == st.data[CellOf(st, p)]
    ensures Owned(st')
    ensures forall t: nat :: ProducerAgrees(st', t)
    ensures forall t: nat :: HistoryAgrees(st', t)
  {
    forall p: nat | p < st'.enqueuePos && p !in st'.published
      ensures Holds(Local(st', st'.claims[p].tid), p)
    {
      assert Holds(Local(st, st.claims[p].tid), p);
    }
    forall t: nat
      ensures ProducerAgrees(st', t)
      ensures HistoryAgrees(st', t)
    {
      assert Local(st', t) == Local(st, t);
      assert ProducerAgrees(st, t) && HistoryAgrees(st, t);
    }
  }

  lemma CheckInv<T>(st: State<T>, residue: T)
    requires Inv(st) && (st.consumer.Waiting? || st.consumer.Checking?)
    ensures Inv(StepConsumer(st, residue))
  {
    var st' := StepConsumer(st, residue);
    if st.consumer.Checking? {
      var pos := st.consumer.pos;
      assert st.sequence[CellOf(st, pos)] == if pos in st.published then pos + 1 else pos;
    }
    ConsumerFrame(st, st');
    assert forall p: nat :: CellOf(st', p) == CellOf(st, p);
  }

  lemma ReadInv<T>(st: State<T>, residue: T)
    requires Inv(st) && st.consumer.Reading?
    ensures Inv(StepConsumer(st, residue))
  {
    var st' := StepConsumer(st, residue);
    OtherCells(st, st.consumer.pos);
    assert forall p: nat :: CellOf(st', p) == CellOf(st, p);
    ConsumerFrame(st, st');
  }

  lemma ReleaseInv<T>(st: State<T>, residue: T)
    requires Inv(st) && st.consumer.Releasing?
    ensures Inv(StepConsumer(st, residue))
  {
    var st' := StepConsumer(st, residue);
    var pos, cap := st.consumer.pos, Capacity(st);
    OtherCells(st, pos);
    SlotNextLap(cap, pos);
    assert forall p: nat :: CellOf(st', p) == CellOf(st, p);
    assert CellsAgree(st') by {
      forall p: nat | Released(st') <= p < Released(st') + cap
        ensures st'.sequence[CellOf(st', p)] == if p in st'.published then p + 1 else p
      {
        if p != pos + cap {
          assert st.sequence[CellOf(st, p)] == if p in st.published then p + 1 else p;
        }
      }
    }
    ConsumerFrame(st, st');
  }

  lemma AdvanceInv<T>(st: State<T>, residue: T)
    requires Inv(st) && st.consumer.Advancing?
    ensures Inv(StepConsumer(st, residue))
  {
    var st' := StepConsumer(st, residue);
    assert forall p: nat :: CellOf(st', p) == CellOf(st, p);
    ConsumerFrame(st, st');
  }

  // ----- Every step, every run -----

  /** Every atomic operation of every thread keeps the invariant. */
  lemma StepInv<T>(st: State<T>, a: Action<T>)
    requires Inv(st)
    ensures Inv(Step(st, a))
  {
    match a
    case Begin(t, value) =>
      if Local(st, t).Idle? { MoveInv(st, t, Entering(value)); }
    case Advance(t, spurious) =>
      assert ProducerAgrees(st, t);
      match Local(st, t) {
        case Idle =>
        case Entering(value) => MoveInv(st, t, Probing(Call(value, st.enqueuePos, 0, 0), st.enqueuePos));
        case Probing(_, _) => ProbeInv(st, t);
        case Claiming(_, _) => CompareExchangeInv(st, t, spurious);
        case Reloading(call, _) => MoveInv(st, t, Probing(call, st.enqueuePos));
        case Writing(_, _) => WriteInv(st, t);
        case Publishing(_, _) => PublishInv(st, t);
      }
    case Consume(residue) =>
      match st.consumer {
        case Waiting => CheckInv(st, residue);
        case Checking(_) => CheckInv(st, residue);
        case Reading(_) => ReadInv(st, residue);
        case Releasing(_, _) => ReleaseInv(st, residue);
        case Advancing(_, _) => AdvanceInv(st, residue);
      }
  }

  /** The invariant holds throughout every run, whatever the schedule. */
  lemma {:induction false} ExecInv<T>(st: State<T>, acts: seq<Action<T>>)
    requires Inv(st)
    ensures Inv(Exec(st, acts))
  {
    if acts == [] {
    } else {
      ExecInv(st, acts[..|acts| - 1]);
      StepInv(Exec(st, acts[..|acts| - 1]), acts[|acts| - 1]);
    }
  }

  /** Every state of every run of a queue with at least two cells satisfies the invariant. */
  lemma ReachableInv<T>(st: State<T>, acts: seq<Action<T>>)
    requires Initial(st) && Capacity(st) >= 2
    ensures Inv(Exec(st, acts))
  {
    InitialInv(st);
    ExecInv(st, acts);
  }
}
