/**
 Progress of the queue as a whole: over any schedule, all producers together take a number of
 operations that the calls begun, the positions claimed and the spurious failures pay for.
 */
module MpscProgress {
  import opened MpscProtocol
  import opened MpscInvariant
  import opened MpscTheorems

  /** What happened in a run: calls of push begun, operations of producers, spurious failures. */
  datatype Tally = Tally(begun: nat, operations: nat, spurious: nat)

  predicate FailsSpuriously<T>(st: State<T>, t: nat, spurious: bool) {
    Local(st, t).Claiming? && Local(st, t).pos == st.enqueuePos && spurious
  }

  function Counted<T>(st: State<T>, a: Action<T>, tally: Tally): Tally {
    match a
    case Begin(t, _) => if Local(st, t).Idle? then tally.(begun := tally.begun + 1) else tally
    case Advance(t, spurious) =>
      if Local(st, t).Idle? then tally
      else tally.(operations := tally.operations + 1,
                  spurious := tally.spurious + if FailsSpuriously(st, t, spurious) then 1 else 0)
    case Consume(_) => tally
  }

  function TallyOf<T>(st: State<T>, acts: seq<Action<T>>): Tally
    requires Sized(st)
  {
    if acts == [] then Tally(0, 0, 0)
    else
      var before := acts[..|acts| - 1];
      Counted(Exec(st, before), acts[|acts| - 1], TallyOf(st, before))
  }

  /** Only producers numbered below `n` are scheduled. */
  predicate Among<T>(acts: seq<Action<T>>, n: nat) {
    forall i :: 0 <= i < |acts| ==> acts[i].Consume? || acts[i].tid < n
  }

  // ----- What the records count -----

  ghost predicate HappensAt<T(!new)>(st: State<T>, acts: seq<Action<T>>, happens: (State<T>, Action<T>) -> bool, i: nat)
    requires Sized(st) && i < |acts|
  {
    happens(Exec(st, acts[..i]), acts[i])
  }

  /** The moments of a run at which `happens` holds of the state and of the operation that follows. */
  ghost function Moments<T(!new)>(st: State<T>, acts: seq<Action<T>>, happens: (State<T>, Action<T>) -> bool): set<nat>
    requires Sized(st)
  {
    set i: nat | i < |acts| && HappensAt(st, acts, happens, i)
  }

  lemma HappensInPrefix<T(!new)>(st: State<T>, acts: seq<Action<T>>, happens: (State<T>, Action<T>) -> bool, i: nat)
    requires Sized(st) && i < |acts| - 1
    ensures HappensAt(st, acts, happens, i) <==> HappensAt(st, acts[..|acts| - 1], happens, i)
  {
    assert acts[..|acts| - 1][..i] == acts[..i];
  }

  lemma LastAdded(now: set<nat>, earlier: set<nat>, last: nat)
    requires forall i :: i in now ==> i <= last
    requires forall i :: i in earlier ==> i < last
    requires forall i: nat :: i < last ==> (i in now <==> i in earlier)
    ensures |now| == |earlier| + if last in now then 1 else 0
  {
    assert now == if last in now then earlier + {last} else earlier;
  }

  lemma MomentsSnoc<T(!new)>(st: State<T>, acts: seq<Action<T>>, happens: (State<T>, Action<T>) -> bool)
    requires Sized(st) && acts != []
    ensures |Moments(st, acts, happens)| ==
            |Moments(st, acts[..|acts| - 1], happens)| + if HappensAt(st, acts, happens, |acts| - 1) then 1 else 0
  {
    var last := |acts| - 1;
    var now, earlier := Moments(st, acts, happens), Moments(st, acts[..last], happens);
    forall i: nat | i < last ensures i in now <==> i in earlier {
      HappensInPrefix(st, acts, happens, i);
    }
    LastAdded(now, earlier, last);
  }

  predicate BeginsACall<T>(st: State<T>, a: Action<T>) {
    a.Begin? && Local(st, a.tid).Idle?
  }

  predicate Operates<T>(st: State<T>, a: Action<T>) {
    a.Advance? && !Local(st, a.tid).Idle?
  }

  predicate FailsThere<T>(st: State<T>, a: Action<T>) {
    a.Advance? && a.spurious && Local(st, a.tid).Claiming? && Local(st, a.tid).pos == st.enqueuePos
  }

  /** The tally is the number of calls begun, of producer operations, and of spurious failures in the run. */
  lemma {:induction false} TallyCounts<T(!new)>(st: State<T>, acts: seq<Action<T>>)
    requires Sized(st)
    ensures var tally := TallyOf(st, acts);
            && tally.begun == |Moments(st, acts, BeginsACall)|
            && tally.operations == |Moments(st, acts, Operates)|
            && tally.spurious == |Moments(st, acts, FailsThere)|
  {
    if acts == [] {
    } else {
      TallyCounts(st, acts[..|acts| - 1]);
      MomentsSnoc(st, acts, BeginsACall);
      MomentsSnoc(st, acts, Operates);
      MomentsSnoc(st, acts, FailsThere);
    }
  }

  function LoadsOf<T>(t: nat): (State<T>, Action<T>) -> bool {
    (st: State<T>, a: Action<T>) => a.Advance? && a.tid == t && Local(st, t).Probing?
  }

  function FailuresOf<T>(t: nat): (State<T>, Action<T>) -> bool {
    (st: State<T>, a: Action<T>) => FailsThere(st, a) && a.tid == t
  }

  function LoadsIn<T>(p: Producer<T>): nat {
    if InLoop(p) then p.call.loads else 0
  }

  function FailuresIn<T>(p: Producer<T>): nat {
    if InLoop(p) then p.call.spurious else 0
  }

  /** The producer's record is the number of its sequence loads and of its spurious failures in the run. */
  ghost predicate Records<T(!new)>(st: State<T>, acts: seq<Action<T>>, t: nat)
    requires Sized(st)
  {
    && LoadsIn(Local(Exec(st, acts), t)) == |Moments(st, acts, LoadsOf(t))|
    && FailuresIn(Local(Exec(st, acts), t)) == |Moments(st, acts, FailuresOf(t))|
  }

  lemma RegistersStep<T>(st: State<T>, a: Action<T>, t: nat)
    requires Sized(st) && !Local(st, t).Idle? && !Local(Step(st, a), t).Idle?
    ensures LoadsIn(Local(Step(st, a), t)) == LoadsIn(Local(st, t)) + if LoadsOf(t)(st, a) then 1 else 0
    ensures FailuresIn(Local(Step(st, a), t)) == FailuresIn(Local(st, t)) + if FailuresOf(t)(st, a) then 1 else 0
  {
  }

  /** As long as one call lasts, its record counts the sequence loads and the spurious failures since it began. */
  lemma {:induction false} CallRecordsItsLoop<T(!new)>(st: State<T>, acts: seq<Action<T>>, t: nat)
    requires Sized(st) && Local(st, t).Entering?
    requires forall k :: 0 <= k <= |acts| ==> !Local(Exec(st, acts[..k]), t).Idle?
    ensures Records(st, acts, t)
  {
    if acts == [] {
    } else {
      var before, a := acts[..|acts| - 1], acts[|acts| - 1];
      assert forall k :: 0 <= k <= |before| ==> before[..k] == acts[..k];
      assert acts[..|acts|] == acts;
      CallRecordsItsLoop(st, before, t);
      RegistersStep(Exec(st, before), a, t);
      MomentsSnoc(st, acts, LoadsOf(t));
      MomentsSnoc(st, acts, FailuresOf(t));
    }
  }

  // ----- Potentials -----

  /** How many operations a producer still needs if nobody claims and nothing fails spuriously. */
  function Left<T>(p: Producer<T>, latest: nat): nat {
    match p
    case Idle => 0
    case Entering(_) => 5
    case Probing(_, pos) => if pos == latest then 4 else 6
    case Claiming(_, pos) => if pos == latest then 3 else 5
    case Reloading(_, _) => 5
    case Writing(_, _) => 2
    case Publishing(_, _) => 1
  }

  /** Calls that have begun and have neither claimed nor been refused. */
  function Unclaimed<T>(p: Producer<T>): nat {
    if p.Entering? || p.Probing? || p.Claiming? || p.Reloading? then 1 else 0
  }

  function AllLeft<T>(st: State<T>, n: nat): nat {
    if n == 0 then 0 else AllLeft(st, n - 1) + Left(Local(st, n - 1), st.enqueuePos)
  }

  function AllUnclaimed<T>(st: State<T>, n: nat): nat {
    if n == 0 then 0 else AllUnclaimed(st, n - 1) + Unclaimed(Local(st, n - 1))
  }

  lemma {:induction false} AllLeftBound<T>(st: State<T>, n: nat)
    ensures AllLeft(st, n) <= 6 * n
  {
    if n == 0 {
    } else {
      AllLeftBound(st, n - 1);
    }
  }

  lemma {:induction false} NobodyLeft<T>(st: State<T>, n: nat)
    requires st.producers == map[]
    ensures AllLeft(st, n) == 0 && AllUnclaimed(st, n) == 0
  {
    if n == 0 {
    } else {
      NobodyLeft(st, n - 1);
    }
  }

  // ----- One operation -----

  /** An operation of `t` sets the others back by at most two each, and only if it moved the claim counter. */
  lemma {:induction false} OthersSetBack<T>(st: State<T>, st': State<T>, t: nat, n: nat)
    requires Inv(st) && st.enqueuePos <= st'.enqueuePos <= st.enqueuePos + 1
    requires forall u: nat :: u != t ==> Local(st', u) == Local(st, u)
    ensures var d := st'.enqueuePos - st.enqueuePos;
            var l, l' := Left(Local(st, t), st.enqueuePos), Left(Local(st', t), st'.enqueuePos);
            && AllLeft(st', n) + (if t < n then l else 0) <=
               AllLeft(st, n) + (if t < n then l' else 0) + 2 * (if d == 0 then 0 else if t < n then n - 1 else n)
            && AllUnclaimed(st', n) + (if t < n then Unclaimed(Local(st, t)) else 0) ==
               AllUnclaimed(st, n) + (if t < n then Unclaimed(Local(st', t)) else 0)
  {
    if n == 0 {
    } else {
      OthersSetBack(st, st', t, n - 1);
      assert ProducerAgrees(st, n - 1);
      if n - 1 != t {
        assert Local(st', n - 1) == Local(st, n - 1);
      }
    }
  }

  /** A producer's own operation brings its end nearer by one, and a spurious failure costs two. */
  lemma OwnOperation<T>(st: State<T>, t: nat, spurious: bool)
    requires Inv(st) && !Local(st, t).Idle?
    ensures var st' := StepProducer(st, t, spurious);
            var l, l' := Left(Local(st, t), st.enqueuePos), Left(Local(st', t), st'.enqueuePos);
            && l' + 1 <= l + (if FailsSpuriously(st, t, spurious) then 2 else 0)
            && st'.enqueuePos - st.enqueuePos == |st'.claims| - |st.claims|
            && |st'.claims| + Unclaimed(Local(st', t)) <= |st.claims| + Unclaimed(Local(st, t))
            && |st.claims| <= |st'.claims| <= |st.claims| + 1
            && forall u: nat :: u != t ==> Local(st', u) == Local(st, u)
  {
    assert ProducerAgrees(st, t);
    if Local(st, t).Probing? {
      CellSeen(st, Local(st, t).pos);
    }
  }

  predicate StepPaidFor(n: nat, before: Tally, after: Tally, claims: nat,
                        left: nat, left': nat, unclaimed: nat, unclaimed': nat)
    requires n > 0
  {
    && (after.operations - before.operations) + left' <=
       left + 5 * (after.begun - before.begun) + 2 * (after.spurious - before.spurious) +
       (if claims == 0 then 0 else 2 * (n - 1))
    && claims + unclaimed' <= unclaimed + (after.begun - before.begun)
  }

  /** Every operation is paid for, whoever takes it. */
  lemma StepIsPaidFor<T>(st: State<T>, a: Action<T>, n: nat, tally: Tally)
    requires Inv(st) && n > 0 && (a.Consume? || a.tid < n)
    ensures var st', after := Step(st, a), Counted(st, a, tally);
            && |st.claims| <= |st'.claims| <= |st.claims| + 1
            && StepPaidFor(n, tally, after, |st'.claims| - |st.claims|,
                           AllLeft(st, n), AllLeft(st', n), AllUnclaimed(st, n), AllUnclaimed(st', n))
  {
    var st' := Step(st, a);
    match a
    case Begin(t, value) =>
      OthersSetBack(st, st', t, n);
    case Advance(t, spurious) =>
      if !Local(st, t).Idle? {
        OwnOperation(st, t, spurious);
        OthersSetBack(st, st', t, n);
      }
    case Consume(residue) =>
      OthersSetBack(st, st', n, n);
  }

  /** What `claims` claims cost the other producers. */
  function SetBack(n: nat, claims: nat): nat
    requires n > 0
  {
    if claims == 0 then 0 else SetBack(n, claims - 1) + 2 * (n - 1)
  }

  lemma {:induction false} SetBackIsProduct(n: nat, claims: nat)
    requires n > 0
    ensures SetBack(n, claims) == 2 * (n - 1) * claims
  {
    if claims == 0 {
    } else {
      SetBackIsProduct(n, claims - 1);
    }
  }

  // ----- Whole runs -----

  /**
   Five operations for each call of push, two for each spurious failure, and two of each other
   producer for each claim; and a claim for each call that is neither refused nor under way.
   */
  predicate PaidFor(n: nat, tally: Tally, claims: nat, left: nat, left': nat, unclaimed: nat, unclaimed': nat)
    requires n > 0
  {
    && tally.operations + left' <= left + 5 * tally.begun + 2 * tally.spurious + SetBack(n, claims)
    && claims + unclaimed' <= unclaimed + tally.begun
  }

  lemma Together(n: nat, before: Tally, after: Tally, claims: nat, more: nat,
                 left: nat, left': nat, left'': nat, unclaimed: nat, unclaimed': nat, unclaimed'': nat)
    requires n > 0 && more <= 1
    requires PaidFor(n, before, claims, left, left', unclaimed, unclaimed')
    requires StepPaidFor(n, before, after, more, left', left'', unclaimed', unclaimed'')
    ensures PaidFor(n, after, claims + more, left, left'', unclaimed, unclaimed'')
  {
  }

  predicate RunPaidFor<T>(st: State<T>, end: State<T>, tally: Tally, n: nat)
    requires n > 0
  {
    && |st.claims| <= |end.claims|
    && PaidFor(n, tally, |end.claims| - |st.claims|,
               AllLeft(st, n), AllLeft(end, n), AllUnclaimed(st, n), AllUnclaimed(end, n))
  }

  lemma OneMorePaidFor<T>(st: State<T>, mid: State<T>, tally: Tally, a: Action<T>, n: nat)
    requires n > 0 && RunPaidFor(st, mid, tally, n)
    requires Inv(mid) && (a.Consume? || a.tid < n)
    ensures RunPaidFor(st, Step(mid, a), Counted(mid, a, tally), n)
  {
    var end := Step(mid, a);
    StepIsPaidFor(mid, a, n, tally);
    Together(n, tally, Counted(mid, a, tally), |mid.claims| - |st.claims|, |end.claims| - |mid.claims|,
             AllLeft(st, n), AllLeft(mid, n), AllLeft(end, n),
             AllUnclaimed(st, n), AllUnclaimed(mid, n), AllUnclaimed(end, n));
  }

  /** From any reachable state, under any schedule of `n` producers and the consumer, all operations are paid for. */
  lemma {:induction false} RunIsPaidFor<T>(st: State<T>, acts: seq<Action<T>>, n: nat)
    requires Inv(st) && n > 0 && Among(acts, n)
    ensures RunPaidFor(st, Exec(st, acts), TallyOf(st, acts), n)
  {
    if acts == [] {
    } else {
      var before, a := acts[..|acts| - 1], acts[|acts| - 1];
      RunIsPaidFor(st, before, n);
      ExecInv(st, before);
      OneMorePaidFor(st, Exec(st, before), TallyOf(st, before), a, n);
    }
  }

  /** Lock-freedom: more operations than the calls, failures and producers pay for mean that some push has claimed. */
  lemma SomePushGetsThrough<T>(st: State<T>, acts: seq<Action<T>>, n: nat)
    requires Inv(st) && n > 0 && Among(acts, n)
    requires TallyOf(st, acts).operations > 6 * n + 5 * TallyOf(st, acts).begun + 2 * TallyOf(st, acts).spurious
    ensures |Exec(st, acts).claims| > |st.claims|
  {
    RunIsPaidFor(st, acts, n);
    AllLeftBound(st, n);
  }

  lemma PaidByCalls(n: nat, tally: Tally, claims: nat, left: nat, unclaimed: nat)
    requires n > 0 && PaidFor(n, tally, claims, 0, left, 0, unclaimed)
    ensures claims <= tally.begun
    ensures tally.operations <= 5 * tally.begun + 2 * tally.spurious + 2 * (n - 1) * claims
    ensures tally.operations <= (2 * n + 3) * tally.begun + 2 * tally.spurious
  {
    SetBackIsProduct(n, claims);
    ClaimsForCalls(2 * (n - 1), claims, tally.begun);
  }

  lemma ClaimsForCalls(k: nat, claims: nat, begun: nat)
    requires claims <= begun
    ensures k * claims + 5 * begun <= (k + 5) * begun
  {
    assert k * (begun - claims) >= 0;
  }

  /** Over any run of the queue, `n` producers take at most 2n + 3 operations per call and two per spurious failure. */
  lemma AllOperationsArePaidFor<T>(st: State<T>, acts: seq<Action<T>>, n: nat)
    requires Initial(st) && Capacity(st) >= 2 && n > 0 && Among(acts, n)
    ensures var end, tally := Exec(st, acts), TallyOf(st, acts);
            && |end.claims| <= tally.begun
            && tally.operations <= 5 * tally.begun + 2 * tally.spurious + 2 * (n - 1) * |end.claims|
            && tally.operations <= (2 * n + 3) * tally.begun + 2 * tally.spurious
  {
    InitialInv(st);
    NobodyLeft(st, n);
    RunIsPaidFor(st, acts, n);
    var end := Exec(st, acts);
    PaidByCalls(n, TallyOf(st, acts), |end.claims|, AllLeft(end, n), AllUnclaimed(end, n));
  }
}
