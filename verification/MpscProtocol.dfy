/**
 The bounded queue as a transition system: one transition per atomic operation, taken by any
 producer or by the consumer in any order. Positions are unbounded; RingIndex relates them to
 64-bit counters.
 */
module MpscProtocol {
  import opened RingIndex

  /** A position of the queue that a producer has won, with the value it will store there. */
  datatype Claim<T> = Claim(tid: nat, value: T)

  /** One call of push: its argument, and a record of how its retry loop went. */
  datatype Call<T> = Call(value: T, start: nat, loads: nat, spurious: nat)

  /** Where a producer stands: the constructor names the atomic operation it performs next. */
  datatype Producer<T> =
    | Idle
    | Entering(argument: T)
    | Probing(call: Call<T>, pos: nat)
    | Claiming(call: Call<T>, pos: nat)
    | Reloading(call: Call<T>, pos: nat)
    | Writing(call: Call<T>, pos: nat)
    | Publishing(call: Call<T>, pos: nat)

  datatype Consumer<T> =
    | Waiting
    | Checking(pos: nat)
    | Reading(pos: nat)
    | Releasing(pos: nat, result: T)
    | Advancing(pos: nat, result: T)

  /**
   The shared memory, the threads, and four history logs: the claims in the order of the
   successful compare-exchanges, the published positions, the pushes that returned true, and
   the values that pop returned.
   */
  datatype State<T> = State(
    enqueuePos: nat,
    dequeuePos: nat,
    sequence: seq<nat>,
    data: seq<T>,
    producers: map<nat, Producer<T>>,
    consumer: Consumer<T>,
    claims: seq<Claim<T>>,
    published: set<nat>,
    returned: seq<Claim<T>>,
    popped: seq<T>)

  /** Scheduler choices: a thread calls push, a producer moves, or the consumer moves. */
  datatype Action<T> =
    | Begin(tid: nat, value: T)
    | Advance(tid: nat, spurious: bool)
    | Consume(residue: T)

  predicate Sized<T>(st: State<T>) {
    |st.sequence| == |st.data| > 0
  }

  function Capacity<T>(st: State<T>): nat {
    |st.sequence|
  }

  function CellOf<T>(st: State<T>, pos: nat): (i: nat)
    requires Sized(st)
    ensures i < |st.sequence| && i < |st.data|
  {
    Slot(|st.sequence|, pos)
  }

  function Local<T>(st: State<T>, t: nat): Producer<T> {
    if t in st.producers then st.producers[t] else Idle
  }

  function Goto<T>(st: State<T>, t: nat, p: Producer<T>): State<T> {
    st.(producers := st.producers[t := p])
  }

  /** The constructor: every cell holds its own index, both counters are zero. */
  predicate Initial<T>(st: State<T>) {
    && Sized(st)
    && ValidCapacity(Capacity(st))
    && st.enqueuePos == 0 && st.dequeuePos == 0
    && (forall i :: 0 <= i < |st.sequence| ==> st.sequence[i] == i)
    && st.producers == map[] && st.consumer == Waiting
    && st.claims == [] && st.published == {} && st.returned == [] && st.popped == []
  }

  // ----- One atomic operation of a producer -----

  function LoadEnqueuePos<T>(st: State<T>, t: nat, value: T): State<T> {
    Goto(st, t, Probing(Call(value, st.enqueuePos, 0, 0), st.enqueuePos))
  }

  function LoadCellSequence<T>(st: State<T>, t: nat, call: Call<T>, pos: nat): State<T>
    requires Sized(st)
  {
    var seen := st.sequence[CellOf(st, pos)];
    var call' := call.(loads := call.loads + 1);
    if seen == pos then Goto(st, t, Claiming(call', pos))
    else if seen < pos then Goto(st, t, Idle)
    else Goto(st, t, Reloading(call', pos))
  }

  /** The weak compare-exchange: it may fail although the counter matches. */
  function CompareExchange<T>(st: State<T>, t: nat, call: Call<T>, pos: nat, spurious: bool): State<T> {
    if st.enqueuePos == pos && !spurious then
      Goto(st, t, Writing(call, pos)).(enqueuePos := pos + 1, claims := st.claims + [Claim(t, call.value)])
    else
      var call' := if st.enqueuePos == pos then call.(spurious := call.spurious + 1) else call;
      Goto(st, t, Probing(call', st.enqueuePos))
  }

  function WriteData<T>(st: State<T>, t: nat, call: Call<T>, pos: nat): State<T>
    requires Sized(st)
  {
    Goto(st, t, Publishing(call, pos)).(data := st.data[CellOf(st, pos) := call.value])
  }

  function StoreSequence<T>(st: State<T>, t: nat, call: Call<T>, pos: nat): State<T>
    requires Sized(st)
  {
    Goto(st, t, Idle).(
      sequence := st.sequence[CellOf(st, pos) := pos + 1],
      published := st.published + {pos},
      returned := st.returned + [Claim(t, call.value)])
  }

  function StepProducer<T>(st: State<T>, t: nat, spurious: bool): State<T>
    requires Sized(st)
  {
    match Local(st, t)
    case Idle => st
    case Entering(value) => LoadEnqueuePos(st, t, value)
    case Probing(call, pos) => LoadCellSequence(st, t, call, pos)
    case Claiming(call, pos) => CompareExchange(st, t, call, pos, spurious)
    case Reloading(call, pos) => Goto(st, t, Probing(call, st.enqueuePos))
    case Writing(call, pos) => WriteData(st, t, call, pos)
    case Publishing(call, pos) => StoreSequence(st, t, call, pos)
  }

  // ----- One atomic operation of the consumer -----

  /** `residue` is whatever moving the value out leaves in the cell. */
  function StepConsumer<T>(st: State<T>, residue: T): State<T>
    requires Sized(st)
  {
    match st.consumer
    case Waiting => st.(consumer := Checking(st.dequeuePos))
    case Checking(pos) =>
      if st.sequence[CellOf(st, pos)] == pos + 1 then st.(consumer := Reading(pos)) else st.(consumer := Waiting)
    case Reading(pos) =>
      st.(consumer := Releasing(pos, st.data[CellOf(st, pos)]), data := st.data[CellOf(st, pos) := residue])
    case Releasing(pos, result) =>
      st.(consumer := Advancing(pos, result), sequence := st.sequence[CellOf(st, pos) := pos + Capacity(st)])
    case Advancing(pos, result) =>
      st.(consumer := Waiting, dequeuePos := pos + 1, popped := st.popped + [result])
  }

  // ----- Steps and runs -----

  function Step<T>(st: State<T>, a: Action<T>): (next: State<T>)
    requires Sized(st)
    ensures Sized(next) && Capacity(next) == Capacity(st)
  {
    match a
    case Begin(t, value) => if Local(st, t).Idle? then Goto(st, t, Entering(value)) else st
    case Advance(t, spurious) => StepProducer(st, t, spurious)
    case Consume(residue) => StepConsumer(st, residue)
  }

  /** The state after a whole schedule. */
  function Exec<T>(st: State<T>, acts: seq<Action<T>>): (end: State<T>)
    requires Sized(st)
    ensures Sized(end) && Capacity(end) == Capacity(st)
  {
    if acts == [] then st else Step(Exec(st, acts[..|acts| - 1]), acts[|acts| - 1])
  }

  lemma ExecSnoc<T>(st: State<T>, acts: seq<Action<T>>, a: Action<T>)
    requires Sized(st)
    ensures Exec(st, acts + [a]) == Step(Exec(st, acts), a)
  {
    assert (acts + [a])[..|acts|] == acts;
  }

  lemma {:induction false} ExecConcat<T>(st: State<T>, first: seq<Action<T>>, second: seq<Action<T>>)
    requires Sized(st)
    ensures Exec(st, first + second) == Exec(Exec(st, first), second)
  {
    if second == [] {
      assert first + second == first;
    } else {
      var front, a := second[..|second| - 1], second[|second| - 1];
      ExecConcat(st, first, front);
      assert first + second == (first + front) + [a];
      ExecSnoc(st, first + front, a);
    }
  }

  // ----- Observations -----

  /** How many cells the consumer has handed back. */
  function Released<T>(st: State<T>): nat {
    if st.consumer.Advancing? then st.dequeuePos + 1 else st.dequeuePos
  }

  /** How many values the consumer has moved out of their cells. */
  function Taken<T>(st: State<T>): nat {
    if st.consumer.Advancing? || st.consumer.Releasing? then st.dequeuePos + 1 else st.dequeuePos
  }

  /** The producer has claimed `pos` and not yet published it. */
  predicate Holds<T>(p: Producer<T>, pos: nat) {
    (p.Writing? || p.Publishing?) && p.pos == pos
  }

  predicate Holding<T>(p: Producer<T>) {
    p.Writing? || p.Publishing?
  }

  function Values<T>(log: seq<Claim<T>>): (vs: seq<T>)
    ensures |vs| == |log| && forall i :: 0 <= i < |log| ==> vs[i] == log[i].value
  {
    seq(|log|, i requires 0 <= i < |log| => log[i].value)
  }

  /** The values one producer contributed to a log, in order. */
  function ByProducer<T>(log: seq<Claim<T>>, t: nat): seq<T> {
    if log == [] then []
    else
      var last := log[|log| - 1];
      ByProducer(log[..|log| - 1], t) + if last.tid == t then [last.value] else []
  }

  function InFlight<T>(p: Producer<T>): seq<T> {
    if Holding(p) then [p.call.value] else []
  }
}
