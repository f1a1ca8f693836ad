/**
 The queue object itself: two counters and two arrays updated in place, with push and pop as the
 loops of the original. Before each atomic operation any number of operations of the other
 threads may happen.
 */
module MpscQueues {
  import opened Options
  import opened RingIndex
  import opened MpscProtocol
  import opened MpscInvariant
  import opened MpscTheorems

  datatype Thread = ProducerThread(tid: nat) | ConsumerThread

  /** How one turn of push's loop ends. */
  datatype Outcome = Won | Full | Again

  predicate ByOther<T>(a: Action<T>, me: Thread) {
    match me
    case ProducerThread(t) => a.Consume? || a.tid != t
    case ConsumerThread => !a.Consume?
  }

  /** What the others cannot take from a thread: its registers and its record of finished calls. */
  predicate SameForThread<T(==)>(before: State<T>, after: State<T>, me: Thread) {
    match me
    case ProducerThread(t) =>
      Local(after, t) == Local(before, t) && ByProducer(after.returned, t) == ByProducer(before.returned, t)
    case ConsumerThread =>
      after.consumer == before.consumer && after.popped == before.popped
  }

  function ArgumentOf<T>(p: Producer<T>): Option<T> {
    match p
    case Idle => None
    case Entering(v) => Some(v)
    case Probing(call, _) => Some(call.value)
    case Claiming(call, _) => Some(call.value)
    case Reloading(call, _) => Some(call.value)
    case Writing(call, _) => Some(call.value)
    case Publishing(call, _) => Some(call.value)
  }

  /** One operation of another producer; the consumer's operations change neither. */
  lemma OtherProducerFrames<T>(st: State<T>, u: nat, spurious: bool, t: nat)
    requires Sized(st) && u != t
    ensures Local(StepProducer(st, u, spurious), t) == Local(st, t)
    ensures ByProducer(StepProducer(st, u, spurious).returned, t) == ByProducer(st.returned, t)
    ensures StepProducer(st, u, spurious).consumer == st.consumer && StepProducer(st, u, spurious).popped == st.popped
  {
    if Local(st, u).Publishing? {
      ByProducerSnoc(st.returned, Claim(u, Local(st, u).call.value), t);
    }
  }

  lemma OtherStepFrames<T>(st: State<T>, a: Action<T>, me: Thread)
    requires Sized(st) && ByOther(a, me)
    ensures SameForThread(st, Step(st, a), me)
  {
    if a.Advance? {
      OtherProducerFrames(st, a.tid, a.spurious, if me.ProducerThread? then me.tid else a.tid + 1);
    }
  }

  /** Any run of the other threads leaves a thread where it stood. */
  lemma {:induction false} OthersFrame<T>(st: State<T>, acts: seq<Action<T>>, me: Thread)
    requires Sized(st)
    requires forall i :: 0 <= i < |acts| ==> ByOther(acts[i], me)
    ensures SameForThread(st, Exec(st, acts), me)
  {
    if acts == [] {
    } else {
      var before := acts[..|acts| - 1];
      OthersFrame(st, before, me);
      OtherStepFrames(Exec(st, before), acts[|acts| - 1], me);
    }
  }

  class MpscQueue<T(0)> {
    const capacity: nat
    var enqueuePos: nat
    var dequeuePos: nat
    const sequence: array<nat>
    const data: array<T>

    /** The state right after construction, and every atomic operation since, in the order they happened. */
    ghost var start: State<T>
    ghost var run: seq<Action<T>>

    ghost function View(): (st: State<T>)
      requires Sized(start)
      reads this
      ensures Sized(st) && Capacity(st) == Capacity(start)
    {
      Exec(start, run)
    }

    /** The memory is what the protocol says it is after the operations so far. */
    ghost predicate Valid()
      reads this, sequence, data
    {
      && sequence as object != data
      && Initial(start) && Capacity(start) == capacity >= 2
      && enqueuePos == View().enqueuePos && dequeuePos == View().dequeuePos
      && sequence[..] == View().sequence && data[..] == View().data
    }

    constructor (capacity: nat)
      requires ValidCapacity(capacity) && capacity >= 2
      ensures Valid() && this.capacity == capacity && run == []
      ensures fresh(sequence) && fresh(data)
    {
      this.capacity := capacity;
      enqueuePos, dequeuePos := 0, 0;
      sequence := new nat[capacity];
      data := new T[capacity];
      run := [];
      new;
      for i := 0 to capacity
        modifies sequence
        invariant forall k :: 0 <= k < i ==> sequence[k] == k
      {
        sequence[i] := i;
      }
      start := State(0, 0, sequence[..], data[..], map[], Waiting, [], {}, [], []);
    }

    /** The state after the first `n` operations. */
    ghost function ViewAt(n: nat): (st: State<T>)
      requires Sized(start) && n <= |run|
      reads this
      ensures Sized(st)
    {
      Exec(start, run[..n])
    }

    lemma ViewInv()
      requires Valid()
      ensures Inv(View())
    {
      ReachableInv(start, run);
    }

    // ----- Interference -----

    /**
     The other threads run. Callers know only that every new operation belongs to someone else
     and that at most `limit` positions are claimed; the body is one of the behaviours allowed.
     */
    method Interfere(ghost me: Thread, ghost limit: nat)
      requires Valid() && enqueuePos <= limit
      modifies this, sequence, data
      ensures Valid() && start == old(start) && enqueuePos <= limit
      ensures old(run) <= run && forall i :: |old(run)| <= i < |run| ==> ByOther(run[i], me)
    {
    }

    method Yield(ghost me: Thread, ghost limit: nat)
      requires Valid() && enqueuePos <= limit
      modifies this, sequence, data
      ensures Valid() && start == old(start) && enqueuePos <= limit
      ensures old(run) <= run && SameForThread(old(View()), View(), me)
    {
      Interfere(me, limit);
      ghost var news := run[|old(run)|..];
      assert run == old(run) + news;
      ExecConcat(start, old(run), news);
      OthersFrame(Exec(start, old(run)), news, me);
    }

    /** Records that the operation just performed was `a`. */
    ghost method Record(a: Action<T>)
      requires Sized(start)
      modifies this`run
      ensures run == old(run) + [a]
    {
      run := run + [a];
    }

    // ----- Atomic operations of a producer -----

    /** Producer `t` is somewhere in the push of `value`, and its earlier pushes left `sent`. */
    ghost predicate Pushing(t: nat, value: T, sent: seq<T>)
      requires Sized(start)
      reads this
    {
      && ByProducer(View().returned, t) == sent
      && ArgumentOf(Local(View(), t)) == Some(value)
    }

    method LoadEnqueuePos(ghost t: nat, ghost value: T, ghost sent: seq<T>) returns (pos: nat)
      requires Valid() && Pushing(t, value, sent)
      requires Local(View(), t).Entering? || Local(View(), t).Reloading?
      modifies this`run
      ensures Valid() && run == old(run) + [Advance(t, false)] && Pushing(t, value, sent)
      ensures pos == enqueuePos && Local(View(), t).Probing? && Local(View(), t).pos == pos
    {
      pos := enqueuePos;
      ExecSnoc(start, run, Advance(t, false));
      Record(Advance(t, false));
    }

    method LoadSequence(pos: nat, ghost t: nat, ghost value: T, ghost sent: seq<T>) returns (seen: nat)
      requires Valid() && Pushing(t, value, sent) && Local(View(), t).Probing? && Local(View(), t).pos == pos
      modifies this`run
      ensures Valid() && run == old(run) + [Advance(t, false)]
      ensures ByProducer(View().returned, t) == sent
      ensures seen == pos ==> Pushing(t, value, sent) && Local(View(), t).Claiming? && Local(View(), t).pos == pos
      ensures seen < pos ==> Local(View(), t).Idle? && |Queue(old(View()))| == capacity
      ensures seen > pos ==> Pushing(t, value, sent) && Local(View(), t).Reloading? && Local(View(), t).pos == pos
    {
      ViewInv();
      PushRefusesOnlyWhenFull(View(), t);
      seen := sequence[Slot(capacity, pos)];
      ExecSnoc(start, run, Advance(t, false));
      Record(Advance(t, false));
    }

    method CompareExchangeWeak(pos: nat, spurious: bool, ghost t: nat, ghost value: T, ghost sent: seq<T>)
      returns (done: bool, seen: nat)
      requires Valid() && Pushing(t, value, sent) && Local(View(), t).Claiming? && Local(View(), t).pos == pos
      modifies this`enqueuePos, this`run
      ensures Valid() && run == old(run) + [Advance(t, spurious)] && Pushing(t, value, sent)
      ensures seen == old(enqueuePos) && done == (seen == pos && !spurious)
      ensures enqueuePos == if done then pos + 1 else seen
      ensures done ==> Local(View(), t).Writing? && Local(View(), t).pos == pos
      ensures !done ==> Local(View(), t).Probing? && Local(View(), t).pos == seen
    {
      seen := enqueuePos;
      done := seen == pos && !spurious;
      if done {
        enqueuePos := pos + 1;
      }
      ExecSnoc(start, run, Advance(t, spurious));
      Record(Advance(t, spurious));
    }

    method StoreData(pos: nat, value: T, ghost t: nat, ghost sent: seq<T>)
      requires Valid() && Pushing(t, value, sent) && Local(View(), t).Writing? && Local(View(), t).pos == pos
      modifies this`run, data
      ensures Valid() && run == old(run) + [Advance(t, false)] && Pushing(t, value, sent)
      ensures Local(View(), t).Publishing? && Local(View(), t).pos == pos
    {
      data[Slot(capacity, pos)] := value;
      ExecSnoc(start, run, Advance(t, false));
      Record(Advance(t, false));
    }

    method StorePublished(pos: nat, ghost t: nat, ghost value: T, ghost sent: seq<T>)
      requires Valid() && Pushing(t, value, sent) && Local(View(), t).Publishing? && Local(View(), t).pos == pos
      modifies this`run, sequence
      ensures Valid() && run == old(run) + [Advance(t, false)] && Local(View(), t).Idle?
      ensures ByProducer(View().returned, t) == sent + [value]
    {
      ByProducerSnoc(View().returned, Claim(t, value), t);
      sequence[Slot(capacity, pos)] := pos + 1;
      ExecSnoc(start, run, Advance(t, false));
      Record(Advance(t, false));
    }

    method BeginPush(ghost t: nat, ghost value: T, ghost sent: seq<T>)
      requires Valid() && Local(View(), t).Idle? && ByProducer(View().returned, t) == sent
      modifies this`run
      ensures Valid() && run == old(run) + [Begin(t, value)] && Pushing(t, value, sent) && Local(View(), t).Entering?
    {
      ExecSnoc(start, run, Begin(t, value));
      Record(Begin(t, value));
    }

    /** Interference as one producer sees it. */
    method YieldPush(ghost t: nat, ghost value: T, ghost sent: seq<T>, ghost limit: nat)
      requires Valid() && enqueuePos <= limit && Pushing(t, value, sent)
      modifies this, sequence, data
      ensures Valid() && start == old(start) && enqueuePos <= limit && old(run) <= run
      ensures Pushing(t, value, sent) && Local(View(), t) == old(Local(View(), t))
      ensures Holding(Local(View(), t)) || Local(View(), t).Idle? || Local(View(), t).Entering? ||
              Local(View(), t).pos <= enqueuePos
      ensures Local(View(), t).Reloading? ==> Local(View(), t).pos < enqueuePos
    {
      Yield(ProducerThread(t), limit);
      ViewInv();
      assert ProducerAgrees(View(), t);
    }

    // ----- Push -----

    /** The compare-exchange of one turn, which may fail spuriously where that is allowed. */
    method TryClaim(pos: nat, mayFail: bool, ghost t: nat, ghost value: T, ghost sent: seq<T>, ghost limit: nat)
      returns (outcome: Outcome, next: nat)
      requires Valid() && enqueuePos <= limit
      requires Pushing(t, value, sent) && Local(View(), t).Claiming? && Local(View(), t).pos == pos
      modifies this, sequence, data
      ensures Valid() && start == old(start) && old(run) <= run && enqueuePos <= limit + 1
      ensures outcome == Won || outcome == Again
      ensures outcome == Won ==> Pushing(t, value, sent) && Local(View(), t).Writing? && Local(View(), t).pos == pos
      ensures outcome == Again ==>
                && Pushing(t, value, sent) && Local(View(), t).Probing? && Local(View(), t).pos == next
                && next <= enqueuePos <= limit
                && (next > pos || (next == pos && mayFail))
    {
      YieldPush(t, value, sent, limit);
      var fails: bool := *;
      var done, now := CompareExchangeWeak(pos, fails && mayFail, t, value, sent);
      if done {
        return Won, pos;
      }
      return Again, now;
    }

    /** One turn of the retry loop. Turning again costs a claim by someone else or a spurious failure. */
    method Attempt(pos: nat, mayFail: bool, ghost t: nat, ghost value: T, ghost sent: seq<T>, ghost limit: nat)
      returns (outcome: Outcome, next: nat, ghost instant: nat)
      requires Valid() && enqueuePos <= limit
      requires Pushing(t, value, sent) && Local(View(), t).Probing? && Local(View(), t).pos == pos
      modifies this, sequence, data
      ensures Valid() && start == old(start) && old(run) <= run && enqueuePos <= limit + 1
      ensures outcome == Won ==> Pushing(t, value, sent) && Local(View(), t).Writing? && Local(View(), t).pos == pos
      ensures outcome == Full ==>
                && Local(View(), t).Idle? && ByProducer(View().returned, t) == sent
                && |old(run)| <= instant <= |run| && |Queue(ViewAt(instant))| == capacity
      ensures outcome == Again ==>
                && Pushing(t, value, sent) && Local(View(), t).Probing? && Local(View(), t).pos == next
                && next <= enqueuePos <= limit
                && (next > pos || (next == pos && mayFail))
    {
      YieldPush(t, value, sent, limit);
      instant := |run|;
      var seen := LoadSequence(pos, t, value, sent);
      var diff := (seen as int) - pos;
      if diff == 0 {
        outcome, next := TryClaim(pos, mayFail, t, value, sent, limit);
      } else if diff < 0 {
        assert run[..instant] + [Advance(t, false)] == run;
        return Full, pos, instant;
      } else {
        YieldPush(t, value, sent, limit);
        next := LoadEnqueuePos(t, value, sent);
        return Again, next, instant;
      }
    }

    /** The retry loop: wins a position for the value, or finds the ring full at `instant`. */
    method ClaimPosition(first: nat, spurious: nat, ghost t: nat, ghost value: T, ghost sent: seq<T>, ghost limit: nat)
      returns (claimed: bool, pos: nat, ghost instant: nat)
      requires Valid() && enqueuePos <= limit && first <= enqueuePos
      requires Pushing(t, value, sent) && Local(View(), t).Probing? && Local(View(), t).pos == first
      modifies this, sequence, data
      ensures Valid() && start == old(start) && old(run) <= run && enqueuePos <= limit + 1
      ensures claimed ==> Pushing(t, value, sent) && Local(View(), t).Writing? && Local(View(), t).pos == pos
      ensures !claimed ==> Local(View(), t).Idle? && ByProducer(View().returned, t) == sent
      ensures !claimed ==> |old(run)| <= instant <= |run| && |Queue(ViewAt(instant))| == capacity
    {
      pos := first;
      var left := spurious;
      while true
        invariant Valid() && start == old(start) && old(run) <= run && pos <= enqueuePos <= limit
        invariant Pushing(t, value, sent) && Local(View(), t).Probing? && Local(View(), t).pos == pos
        decreases limit - pos + left
      {
        var outcome, next;
        outcome, next, instant := Attempt(pos, left > 0, t, value, sent, limit);
        if outcome != Again {
          return outcome == Won, pos, instant;
        }
        left := if next == pos then left - 1 else left;
        pos := next;
      }
    }

    /**
     Producer `t` pushes `value` while the others interfere at every operation. The call ends
     although the others may claim up to `limit` positions and the compare-exchange may fail
     spuriously `spurious` times; it is recorded exactly once if it returns true and not at all
     otherwise, and then the ring was full at `instant`.
     */
    method Push(value: T, ghost t: nat, ghost limit: nat, spurious: nat) returns (ok: bool, ghost instant: nat)
      requires Valid() && Local(View(), t).Idle? && enqueuePos <= limit
      modifies this, sequence, data
      ensures Valid() && start == old(start) && old(run) <= run && Local(View(), t).Idle?
      ensures ByProducer(View().returned, t) == old(ByProducer(View().returned, t)) + if ok then [value] else []
      ensures !ok ==> |old(run)| <= instant <= |run| && |Queue(ViewAt(instant))| == capacity
    {
      ghost var sent := ByProducer(View().returned, t);
      BeginPush(t, value, sent);
      YieldPush(t, value, sent, limit);
      var first := LoadEnqueuePos(t, value, sent);
      var claimed, pos;
      claimed, pos, instant := ClaimPosition(first, spurious, t, value, sent, limit);
      if !claimed {
        return false, instant;
      }
      YieldPush(t, value, sent, limit + 1);
      StoreData(pos, value, t, sent);
      YieldPush(t, value, sent, limit + 1);
      StorePublished(pos, t, value, sent);
      ok := true;
    }

    // ----- Atomic operations of the consumer -----

    /** The consumer stands at `c` and earlier pops returned `before`. */
    ghost predicate Popping(c: Consumer<T>, before: seq<T>)
      requires Sized(start)
      reads this
    {
      View().consumer == c && View().popped == before
    }

    method LoadDequeuePos(residue: T, ghost before: seq<T>) returns (pos: nat)
      requires Valid() && Popping(Waiting, before)
      modifies this`run
      ensures Valid() && run == old(run) + [Consume(residue)] && Popping(Checking(pos), before) && pos == dequeuePos
    {
      pos := dequeuePos;
      ExecSnoc(start, run, Consume(residue));
      Record(Consume(residue));
    }

    method LoadSequenceForPop(pos: nat, residue: T, ghost before: seq<T>) returns (seen: nat)
      requires Valid() && Popping(Checking(pos), before)
      modifies this`run
      ensures Valid() && run == old(run) + [Consume(residue)]
      ensures seen == pos + 1 ==> Popping(Reading(pos), before)
      ensures seen != pos + 1 ==> Popping(Waiting, before) && pos !in old(View()).published
    {
      ViewInv();
      PopEmptyMeansUnpublished(View(), residue);
      seen := sequence[Slot(capacity, pos)];
      ExecSnoc(start, run, Consume(residue));
      Record(Consume(residue));
    }

    method MoveData(pos: nat, residue: T, ghost before: seq<T>) returns (result: T)
      requires Valid() && Popping(Reading(pos), before)
      modifies this`run, data
      ensures Valid() && run == old(run) + [Consume(residue)] && Popping(Releasing(pos, result), before)
    {
      result := data[Slot(capacity, pos)];
      data[Slot(capacity, pos)] := residue;
      ExecSnoc(start, run, Consume(residue));
      Record(Consume(residue));
    }

    method StoreReleased(pos: nat, residue: T, ghost result: T, ghost before: seq<T>)
      requires Valid() && Popping(Releasing(pos, result), before)
      modifies this`run, sequence
      ensures Valid() && run == old(run) + [Consume(residue)] && Popping(Advancing(pos, result), before)
    {
      sequence[Slot(capacity, pos)] := pos + capacity;
      ExecSnoc(start, run, Consume(residue));
      Record(Consume(residue));
    }

    method StoreDequeuePos(pos: nat, residue: T, ghost result: T, ghost before: seq<T>)
      requires Valid() && Popping(Advancing(pos, result), before)
      modifies this`run, this`dequeuePos
      ensures Valid() && run == old(run) + [Consume(residue)] && Popping(Waiting, before + [result])
      ensures dequeuePos == pos + 1 && pos < |View().claims| && View().claims[pos].value == result
    {
      ViewInv();
      dequeuePos := pos + 1;
      ExecSnoc(start, run, Consume(residue));
      Record(Consume(residue));
    }

    /** Interference as the consumer sees it: its counter cannot move under it. */
    method YieldPop(ghost c: Consumer<T>, ghost before: seq<T>, ghost limit: nat)
      requires Valid() && enqueuePos <= limit && Popping(c, before)
      modifies this, sequence, data
      ensures Valid() && start == old(start) && enqueuePos <= limit && old(run) <= run
      ensures Popping(c, before) && dequeuePos == old(dequeuePos)
    {
      ViewInv();
      Yield(ConsumerThread, limit);
      ViewInv();
    }

    // ----- Pop -----

    /** The head is published: move its value out, hand the cell back, advance. */
    method TakeHead(pos: nat, residue: T, ghost before: seq<T>, ghost limit: nat) returns (value: T)
      requires Valid() && enqueuePos <= limit && Popping(Reading(pos), before) && dequeuePos == pos
      modifies this, sequence, data
      ensures Valid() && start == old(start) && old(run) <= run
      ensures Popping(Waiting, before + [value]) && dequeuePos == pos + 1
      ensures pos < |View().claims| && View().claims[pos].value == value
    {
      YieldPop(Reading(pos), before, limit);
      value := MoveData(pos, residue, before);
      YieldPop(Releasing(pos, value), before, limit);
      StoreReleased(pos, residue, value, before);
      YieldPop(Advancing(pos, value), before, limit);
      StoreDequeuePos(pos, residue, value, before);
    }

    /**
     The consumer pops while producers interfere. A value is the next one in claim order; nothing
     means that at `instant` the next position was unpublished.
     */
    method Pop(residue: T, ghost limit: nat) returns (result: Option<T>, ghost instant: nat)
      requires Valid() && View().consumer.Waiting? && enqueuePos <= limit
      modifies this, sequence, data
      ensures Valid() && start == old(start) && old(run) <= run && View().consumer.Waiting?
      ensures View().popped == old(View().popped) + match result case None => [] case Some(v) => [v]
      ensures dequeuePos == old(dequeuePos) + if result.Some? then 1 else 0
      ensures result.Some? ==>
                old(dequeuePos) < |View().claims| && result.value == View().claims[old(dequeuePos)].value
      ensures result.None? ==> |old(run)| <= instant <= |run| && dequeuePos !in ViewAt(instant).published
    {
      ghost var before := View().popped;
      YieldPop(Waiting, before, limit);
      var pos := LoadDequeuePos(residue, before);
      YieldPop(Checking(pos), before, limit);
      instant := |run|;
      var seen := LoadSequenceForPop(pos, residue, before);
      var diff := (seen as int) - (pos + 1);
      if diff != 0 {
        assert run[..instant] + [Consume(residue)] == run;
        return None, instant;
      }
      var value := TakeHead(pos, residue, before, limit);
      result := Some(value);
    }
  }
}
