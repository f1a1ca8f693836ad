/**
 The provider's connection loop: exponential backoff with a cap and an attempt limit, in 64-bit
 arithmetic, with the outcome of each connection chosen by the environment.
 */
module Reconnection {
  import opened Arithmetic

  /** The three constants; the delays are unsigned 64-bit values. */
  datatype Backoff = Backoff(maxAttempts: nat, initialMs: nat, capMs: nat)

  const SHIPPED := Backoff(10, 1000, 60000)

  predicate ValidBackoff(b: Backoff) {
    b.maxAttempts <= 64 && b.initialMs < WORD && b.capMs < WORD
  }

  /** What one pass through the loop meets. A stop may arrive before, at or after the reconnection handler. */
  datatype Event = Dropped | Failed | StoppedWhileConnected | StoppedBeforeBackoff | StoppedDuringBackoff

  /** The stop was noticed before the drop was counted. */
  predicate Stopped(event: Event) {
    event.StoppedWhileConnected? || event.StoppedBeforeBackoff?
  }

  /** The loop ends after this pass, limit or not. */
  predicate Stops(event: Event) {
    Stopped(event) || event.StoppedDuringBackoff?
  }

  function Least(a: nat, b: nat): (r: nat)
    ensures r <= a && r <= b && (r == a || r == b)
  {
    if b < a then b else a
  }

  /** `x` doubled k times, with no word size in the way. */
  function Doubled(x: nat, k: nat): nat {
    if k == 0 then x else 2 * Doubled(x, k - 1)
  }

  lemma {:induction false} DoubledIsProduct(x: nat, k: nat)
    ensures Doubled(x, k) == x * Pow2(k)
  {
    if k == 0 {
    } else {
      DoubledIsProduct(x, k - 1);
      assert x * Pow2(k) == 2 * (x * Pow2(k - 1));
    }
  }

  /** The delay before the count-th reconnection, as 64-bit words hold it. */
  function DelayMs(b: Backoff, count: nat): nat
    requires 1 <= count
  {
    Least(Doubled(b.initialMs, count - 1) % WORD, b.capMs)
  }

  /** Doubling from the initial delay up to the cap. */
  function IdealDelayMs(b: Backoff, count: nat): nat
    requires 1 <= count
  {
    Least(Doubled(b.initialMs, count - 1), b.capMs)
  }

  /** The product fits in a word, or wraps to something that is capped anyway. */
  predicate WrapIsHarmless(b: Backoff, count: nat)
    requires 1 <= count
  {
    var product := Doubled(b.initialMs, count - 1);
    product < WORD || product % WORD >= b.capMs
  }

  /** The wait is the intended one exactly when the word arithmetic does no harm. */
  lemma DelayIsIdealExactlyWhen(b: Backoff, count: nat)
    requires ValidBackoff(b) && 1 <= count
    ensures DelayMs(b, count) == IdealDelayMs(b, count) <==> WrapIsHarmless(b, count)
  {
  }

  /** None of the first n waits is damaged by the word size. */
  ghost predicate NoHarm(b: Backoff, n: nat) {
    forall c: nat :: 1 <= c <= n ==> WrapIsHarmless(b, c)
  }

  lemma {:induction false} DoubledGrows(x: nat, i: nat, j: nat)
    requires i <= j
    ensures Doubled(x, i) <= Doubled(x, j)
    decreases j - i
  {
    if i == j {
    } else {
      DoubledGrows(x, i, j - 1);
    }
  }

  /** Constants whose last, largest product fits in a word do no harm. */
  lemma SmallConstantsDoNoHarm(b: Backoff, n: nat)
    requires n > 0 ==> Doubled(b.initialMs, n - 1) < WORD
    ensures NoHarm(b, n)
  {
    forall c: nat | 1 <= c <= n ensures WrapIsHarmless(b, c) {
      DoubledGrows(b.initialMs, c - 1, n - 1);
    }
  }

  /** The first harmful wrap makes a delay shorter than the one before it. */
  lemma HarmfulWrapShortens(b: Backoff, c: nat)
    requires ValidBackoff(b) && c >= 1 && WrapIsHarmless(b, c) && !WrapIsHarmless(b, c + 1)
    ensures DelayMs(b, c + 1) < DelayMs(b, c)
  {
    assert Doubled(b.initialMs, c) == 2 * Doubled(b.initialMs, c - 1);
  }

  /** For all constants, a wait exceeds neither the cap nor the intended doubling: wrapping only shrinks it. */
  lemma DelayIsAtMost(b: Backoff, count: nat)
    requires 1 <= count
    ensures DelayMs(b, count) <= b.capMs && DelayMs(b, count) <= IdealDelayMs(b, count)
  {
  }

  /** A delay that is not damaged by the word size is at least every earlier one. */
  lemma DelaysGrow(b: Backoff, i: nat, j: nat)
    requires ValidBackoff(b) && 1 <= i <= j && WrapIsHarmless(b, j)
    ensures DelayMs(b, i) <= DelayMs(b, j)
  {
    DoubledGrows(b.initialMs, i - 1, j - 1);
    DelayIsAtMost(b, i);
    DelayIsIdealExactlyWhen(b, j);
  }

  /** The first n delays are non-decreasing exactly when no wrap among them is harmful. */
  lemma {:induction false} DelaysGrowExactlyWhen(b: Backoff, n: nat)
    requires ValidBackoff(b)
    ensures (forall c: nat :: 1 <= c < n ==> DelayMs(b, c) <= DelayMs(b, c + 1)) <==> NoHarm(b, n)
  {
    if n <= 1 {
    } else {
      DelaysGrowExactlyWhen(b, n - 1);
      if NoHarm(b, n - 1) {
        if WrapIsHarmless(b, n) {
          DelaysGrow(b, n - 1, n);
        } else {
          HarmfulWrapShortens(b, n - 1);
        }
      }
    }
  }

  /** Constants for which the word overflows make the second delay shorter than the first. */
  lemma OverflowShortensTheDelay()
    ensures var b := Backoff(10, 0x8000_0000_0000_0000, 60000);
            ValidBackoff(b) && !WrapIsHarmless(b, 2) && DelayMs(b, 2) < DelayMs(b, 1)
  {
    assert Doubled(0x8000_0000_0000_0000, 1) == WORD;
  }

  // ----- The waits of a whole lifetime -----

  /** The waits as a function of the reconnection's number. */
  function Delays(b: Backoff): nat -> nat {
    count => if count >= 1 then DelayMs(b, count) else 0
  }

  /** The first n waits. */
  function Schedule(delay: nat -> nat, n: nat): (s: seq<nat>)
    ensures |s| == n
  {
    if n == 0 then [] else Schedule(delay, n - 1) + [delay(n)]
  }

  /** The k-th wait of the schedule, counted from zero, is the one before reconnection k + 1. */
  lemma {:induction false} ScheduleAt(delay: nat -> nat, n: nat, k: nat)
    requires k < n
    ensures Schedule(delay, n)[k] == delay(k + 1)
  {
    if k == n - 1 {
    } else {
      ScheduleAt(delay, n - 1, k);
    }
  }

  function Sum(s: seq<nat>): nat {
    if s == [] then 0 else Sum(s[..|s| - 1]) + s[|s| - 1]
  }

  /** How many of the first n waits are still below the cap. */
  function Doublings(b: Backoff, n: nat): (k: nat)
    ensures k <= n
  {
    if n == 0 then 0
    else if Doubled(b.initialMs, n - 1) < b.capMs then n
    else Doublings(b, n - 1)
  }

  /** The waits below the cap are the first ones. */
  lemma {:induction false} DoublingsAreFirst(b: Backoff, n: nat, c: nat)
    requires 1 <= c <= n
    ensures Doubled(b.initialMs, c - 1) < b.capMs <==> c <= Doublings(b, n)
  {
    if Doubled(b.initialMs, n - 1) < b.capMs {
      DoubledGrows(b.initialMs, c - 1, n - 1);
    } else if c == n {
    } else {
      DoublingsAreFirst(b, n - 1, c);
    }
  }

  /** A geometric part up to the cap, initial * (2^k - 1), and a constant part after it. */
  function TotalMs(b: Backoff, n: nat): int {
    var k := Doublings(b, n);
    Doubled(b.initialMs, k) - b.initialMs + (n - k) * b.capMs
  }

  lemma SumSnoc(s: seq<nat>, x: nat)
    ensures Sum(s + [x]) == Sum(s) + x
  {
    assert (s + [x])[..|s|] == s;
  }

  lemma ConstantStep(m: int, cap: int)
    ensures m * cap == (m - 1) * cap + cap
  {
  }

  lemma TotalStep(b: Backoff, n: nat)
    requires n > 0
    ensures TotalMs(b, n) == TotalMs(b, n - 1) + IdealDelayMs(b, n)
  {
    if Doubled(b.initialMs, n - 1) < b.capMs {
      if n > 1 {
        DoubledGrows(b.initialMs, n - 2, n - 1);
      }
    } else {
      ConstantStep(n - Doublings(b, n - 1), b.capMs);
    }
  }

  /**
   For all constants the waits add up to at most the closed form, and to exactly the closed form if
   and only if the word size damages none of them.
   */
  lemma {:induction false} ScheduleTotal(b: Backoff, n: nat)
    ensures Sum(Schedule(Delays(b), n)) <= TotalMs(b, n)
    ensures ValidBackoff(b) ==> (Sum(Schedule(Delays(b), n)) == TotalMs(b, n) <==> NoHarm(b, n))
  {
    if n == 0 {
    } else {
      ScheduleTotal(b, n - 1);
      SumSnoc(Schedule(Delays(b), n - 1), DelayMs(b, n));
      DelayIsAtMost(b, n);
      TotalStep(b, n);
      if ValidBackoff(b) {
        DelayIsIdealExactlyWhen(b, n);
        assert NoHarm(b, n) <==> NoHarm(b, n - 1) && WrapIsHarmless(b, n);
      }
    }
  }

  /** With the shipped constants at most 303 seconds are ever spent waiting. */
  lemma ShippedTotal()
    ensures ValidBackoff(SHIPPED) && NoHarm(SHIPPED, SHIPPED.maxAttempts)
    ensures TotalMs(SHIPPED, SHIPPED.maxAttempts) == 303000
  {
    assert Doubled(1000, 3) == 8000;
    assert Doubled(1000, 6) == 64000;
    assert Doubled(1000, 9) == 512000;
    assert Doubled(1000, 7) == 128000 && Doubled(1000, 8) == 256000;
    assert Doublings(SHIPPED, 6) == 6;
    assert Doublings(SHIPPED, 8) == 6;
    SmallConstantsDoNoHarm(SHIPPED, 10);
  }

  /** The waits of the shipped constants, one by one. */
  lemma ShippedWaits()
    ensures Schedule(Delays(SHIPPED), SHIPPED.maxAttempts) ==
            [1000, 2000, 4000, 8000, 16000, 32000, 60000, 60000, 60000, 60000]
  {
    ShippedTotal();
    assert Doubled(1000, 3) == 8000;
    assert Doubled(1000, 6) == 64000;
    assert Doubled(1000, 9) == 512000;
    assert Schedule(Delays(SHIPPED), 5) == [1000, 2000, 4000, 8000, 16000];
  }

  // ----- One run of the loop -----

  datatype Outcome = Outcome(attempts: nat, count: nat, waits: seq<nat>)

  /** What a run started with `count` earlier drops does, given what each connection meets. */
  function RunOutcome(limit: nat, delay: nat -> nat, count: nat, events: nat -> Event, i: nat): Outcome
    decreases limit - count
  {
    match events(i)
    case StoppedWhileConnected => Outcome(1, count, [])
    case StoppedBeforeBackoff => Outcome(1, count, [])
    case StoppedDuringBackoff =>
      Outcome(1, count + 1, if count + 1 > limit then [] else [delay(count + 1)])
    case _ =>
      if count + 1 > limit then Outcome(1, count + 1, [])
      else
        var later := RunOutcome(limit, delay, count + 1, events, i + 1);
        Outcome(1 + later.attempts, later.count, [delay(count + 1)] + later.waits)
  }

  /** The wait of one pass that moved the counter from `count` to `next`, if there was one. */
  function WaitedAt(limit: nat, delay: nat -> nat, count: nat, next: nat): seq<nat> {
    if next == count || next > limit then [] else [delay(next)]
  }

  function RestOfRun(goesOn: bool, limit: nat, delay: nat -> nat, count: nat, events: nat -> Event, i: nat): Outcome {
    if goesOn then RunOutcome(limit, delay, count, events, i) else Outcome(0, count, [])
  }

  /** An outcome counted together with the attempts and waits before it. */
  function Since(attempts: nat, waits: seq<nat>, o: Outcome): Outcome {
    Outcome(attempts + o.attempts, o.count, waits + o.waits)
  }

  /** One pass, after the attempts and waits before it, and what is left of the run. */
  lemma RunUnfolds(limit: nat, delay: nat -> nat, count: nat, events: nat -> Event, i: nat,
                   attempts: nat, waits: seq<nat>)
    ensures var next := count + if Stopped(events(i)) then 0 else 1;
            var goesOn := (events(i).Dropped? || events(i).Failed?) && next <= limit;
            var later := RestOfRun(goesOn, limit, delay, next, events, i + 1);
            Since(attempts, waits, RunOutcome(limit, delay, count, events, i)) ==
            Since(attempts + 1, waits + WaitedAt(limit, delay, count, next), later)
  {
    var next := count + if Stopped(events(i)) then 0 else 1;
    var goesOn := (events(i).Dropped? || events(i).Failed?) && next <= limit;
    Associate(waits, WaitedAt(limit, delay, count, next),
              RestOfRun(goesOn, limit, delay, next, events, i + 1).waits);
  }

  lemma Associate(a: seq<nat>, b: seq<nat>, c: seq<nat>)
    ensures a + (b + c) == (a + b) + c
  {
  }

  /** Every run ends: the attempts are bounded, and the waits continue the schedule where the last run left it. */
  lemma {:induction false} RunIsBounded(limit: nat, delay: nat -> nat, count: nat, events: nat -> Event, i: nat)
    ensures var o := RunOutcome(limit, delay, count, events, i);
            && 1 <= o.attempts <= (if count <= limit then limit + 1 - count else 1)
            && count <= o.count <= count + o.attempts <= o.count + 1
            && Schedule(delay, Least(count, limit)) + o.waits == Schedule(delay, Least(o.count, limit))
    decreases limit - count
  {
    if Stops(events(i)) {
    } else if count >= limit {
    } else {
      RunIsBounded(limit, delay, count + 1, events, i + 1);
      var later := RunOutcome(limit, delay, count + 1, events, i + 1);
      Associate(Schedule(delay, count), [delay(count + 1)], later.waits);
    }
  }

  /**
   Where a run ends and what it has counted by then: all connections before the last are lost, the
   last meets a stop or passes the limit, and every connection is counted but one whose stop is
   noticed while connected or before the backoff. A stop during the backoff comes after the count.
   */
  lemma {:induction false} RunEndsAt(limit: nat, delay: nat -> nat, count: nat, events: nat -> Event, i: nat)
    requires count <= limit
    ensures var o := RunOutcome(limit, delay, count, events, i);
            && o.attempts >= 1 && count + o.attempts - 1 <= limit
            && var last := events(i + o.attempts - 1);
            && (forall k :: i <= k < i + o.attempts - 1 ==> events(k).Dropped? || events(k).Failed?)
            && (last.Dropped? || last.Failed? ==> o.count > limit)
            && o.count ==
               count + o.attempts - if last.StoppedWhileConnected? || last.StoppedBeforeBackoff? then 1 else 0
    decreases limit - count
  {
    if Stops(events(i)) {
    } else if count == limit {
    } else {
      RunEndsAt(limit, delay, count + 1, events, i + 1);
    }
  }

  lemma AttemptsAreBounded(limit: nat, delay: nat -> nat, count: nat, events: nat -> Event,
                           attempts: nat, waits: seq<nat>)
    ensures Since(attempts, waits, RunOutcome(limit, delay, count, events, 0)).attempts <= attempts + limit + 1
  {
    RunIsBounded(limit, delay, count, events, 0);
  }

  /** If every connection is lost, exactly one attempt more than the limit is made and the whole schedule is waited. */
  lemma {:induction false} LosingEveryConnection(limit: nat, delay: nat -> nat, count: nat,
                                                 events: nat -> Event, i: nat)
    requires count <= limit && forall k: nat :: events(k).Dropped? || events(k).Failed?
    ensures var o := RunOutcome(limit, delay, count, events, i);
            && o.attempts == limit + 1 - count && o.count == limit + 1
            && Schedule(delay, count) + o.waits == Schedule(delay, limit)
    decreases limit - count
  {
    assert events(i).Dropped? || events(i).Failed?;
    RunIsBounded(limit, delay, count, events, i);
    if count == limit {
    } else {
      LosingEveryConnection(limit, delay, count + 1, events, i + 1);
    }
  }

  /**
   A run passes the limit exactly if no stop comes before the limit's last reconnection, and the
   connection after that one ends in any way but a stop that is noticed before the drop is counted.
   */
  lemma {:induction false} LimitPassedExactlyWhen(limit: nat, delay: nat -> nat, count: nat,
                                                  events: nat -> Event, i: nat)
    requires count <= limit
    ensures RunOutcome(limit, delay, count, events, i).count > limit <==>
            && (forall k :: i <= k < i + (limit - count) ==> !Stops(events(k)))
            && !Stopped(events(i + (limit - count)))
    decreases limit - count
  {
    if count == limit || Stops(events(i)) {
    } else {
      LimitPassedExactlyWhen(limit, delay, count + 1, events, i + 1);
    }
  }

  // ----- The provider -----

  /** How a start ends: ignored, with a new worker, or with the program terminated by the thread library. */
  datatype StartResult = AlreadyRunning | Spawned | Terminated

  class BaseProvider {
    const backoff: Backoff
    var running: bool
    var reconnectCount: nat

    /** A worker thread was started and not joined yet. */
    var workerJoinable: bool

    /** A start assigned to the handle of a worker that was never joined. */
    var terminated: bool

    /** Connections tried and waits slept through since construction, over all runs. */
    ghost var attempts: nat
    ghost var waits: seq<nat>

    /**
     The counter is never reset, so the waits of all runs together are one prefix of the schedule;
     it passes the limit once, and then the last worker is left unjoined.
     */
    ghost predicate Valid()
      reads this
    {
      && ValidBackoff(backoff)
      && waits == Schedule(Delays(backoff), Least(reconnectCount, backoff.maxAttempts))
      && reconnectCount <= backoff.maxAttempts + 1
      && (workerJoinable <==> running || reconnectCount > backoff.maxAttempts)
      && (terminated <==> running && reconnectCount > backoff.maxAttempts)
    }

    constructor (backoff: Backoff)
      requires ValidBackoff(backoff)
      ensures Valid() && this.backoff == backoff && !running && reconnectCount == 0 && attempts == 0 && waits == []
      ensures !workerJoinable && !terminated
    {
      this.backoff := backoff;
      running, reconnectCount := false, 0;
      workerJoinable, terminated := false, false;
      attempts, waits := 0, [];
    }

    /**
     A second start is ignored. A start after the limit was passed ends the program, because the
     worker that passed it is still joinable; every other start begins a worker.
     */
    method Start() returns (result: StartResult)
      requires Valid() && !terminated
      modifies this`running, this`workerJoinable, this`terminated
      ensures Valid() && running && terminated == result.Terminated?
      ensures result.AlreadyRunning? <==> old(running)
      ensures result.Terminated? <==> !old(running) && old(reconnectCount) > backoff.maxAttempts
    {
      if running {
        return AlreadyRunning;
      }
      running := true;
      if workerJoinable {
        terminated := true;
        return Terminated;
      }
      workerJoinable := true;
      return Spawned;
    }

    /** Joins the worker only if the provider was still running. */
    method Stop()
      requires Valid() && !terminated
      modifies this`running, this`workerJoinable
      ensures Valid() && !running && workerJoinable == (old(workerJoinable) && !old(running))
    {
      if !running {
        return;
      }
      running := false;
      workerJoinable := false;
    }

    /**
     The destructor: it stops the provider, and then the thread handle is destroyed, which ends the
     program if a worker is still joinable.
     */
    method Destroy() returns (ended: bool)
      requires Valid() && !terminated
      modifies this`running, this`workerJoinable
      ensures ended <==> old(reconnectCount) > backoff.maxAttempts
    {
      Stop();
      ended := workerJoinable;
    }

    method HandleReconnection()
      requires Valid() && !terminated
      modifies this`running, this`reconnectCount, this`waits
      ensures Valid()
      ensures !old(running) ==> !running && reconnectCount == old(reconnectCount) && waits == old(waits)
      ensures old(running) ==> reconnectCount == old(reconnectCount) + 1
      ensures old(running) ==> running == (reconnectCount <= backoff.maxAttempts)
      ensures old(running) ==> waits == old(waits) + if running then [Delays(backoff)(reconnectCount)] else []
      ensures running ==>
                var product := (backoff.initialMs * Pow2(old(reconnectCount))) % WORD;
                waits == old(waits) + [if product < backoff.capMs then product else backoff.capMs]
    {
      if !running {
        return;
      }
      reconnectCount := reconnectCount + 1;
      if reconnectCount > backoff.maxAttempts {
        running := false;
        return;
      }
      DoubledIsProduct(backoff.initialMs, reconnectCount - 1);
      var delay := Least((backoff.initialMs * Pow2(reconnectCount - 1)) % WORD, backoff.capMs);
      waits := waits + [delay];
    }

    /** One pass and what is left of the run: connect, and do what the end of the i-th connection calls for. */
    method Pass(events: nat -> Event, i: nat)
      requires Valid() && running && !terminated
      modifies this`running, this`workerJoinable, this`reconnectCount, this`waits, this`attempts
      ensures Valid() && !terminated && (running ==> reconnectCount > old(reconnectCount))
      ensures Since(attempts, waits,
                    RestOfRun(running, backoff.maxAttempts, Delays(backoff), reconnectCount, events, i + 1)) ==
              Since(old(attempts), old(waits),
                    RunOutcome(backoff.maxAttempts, Delays(backoff), old(reconnectCount), events, i))
    {
      RunUnfolds(backoff.maxAttempts, Delays(backoff), reconnectCount, events, i, attempts, waits);
      Connect(events(i));
    }

    /** Connect, and do what the connection's end calls for. */
    method Connect(event: Event)
      requires Valid() && running && !terminated
      modifies this`running, this`workerJoinable, this`reconnectCount, this`waits, this`attempts
      ensures Valid() && attempts == old(attempts) + 1
      ensures reconnectCount == old(reconnectCount) + if Stopped(event) then 0 else 1
      ensures waits == old(waits) + WaitedAt(backoff.maxAttempts, Delays(backoff), old(reconnectCount), reconnectCount)
      ensures running <==> (event.Dropped? || event.Failed?) && reconnectCount <= backoff.maxAttempts
    {
      attempts := attempts + 1;
      match event {
        case StoppedWhileConnected =>
          Stop();
        case StoppedBeforeBackoff =>
          Stop();
          HandleReconnection();
        case StoppedDuringBackoff =>
          HandleReconnection();
          Stop();
        case Dropped =>
          HandleReconnection();
        case Failed =>
          HandleReconnection();
      }
    }

    /**
     The worker's loop; `events(k)` is what its k-th connection meets. Afterwards a start is possible
     again unless the limit was reached.
     */
    method Run(events: nat -> Event)
      requires Valid() && running && !terminated
      modifies this`running, this`workerJoinable, this`reconnectCount, this`waits, this`attempts
      ensures Valid() && !running && !terminated
      ensures Outcome(attempts, reconnectCount, waits) ==
              Since(old(attempts), old(waits),
                    RunOutcome(backoff.maxAttempts, Delays(backoff), old(reconnectCount), events, 0))
      ensures attempts - old(attempts) <= backoff.maxAttempts + 1
    {
      ghost var limit, delay := backoff.maxAttempts, Delays(backoff);
      ghost var whole := Since(attempts, waits, RunOutcome(limit, delay, reconnectCount, events, 0));
      var k := 0;
      while running
        invariant Valid() && !terminated
        invariant Since(attempts, waits, RestOfRun(running, limit, delay, reconnectCount, events, k)) == whole
        decreases if running then backoff.maxAttempts + 1 - reconnectCount else 0
      {
        Pass(events, k);
        k := k + 1;
      }
      AttemptsAreBounded(limit, delay, old(reconnectCount), events, old(attempts), old(waits));
    }

    /** For all constants, over the whole lifetime, restarts included, the closed form bounds the waiting. */
    lemma LifetimeWaits()
      requires Valid()
      ensures |waits| <= backoff.maxAttempts && Sum(waits) <= TotalMs(backoff, backoff.maxAttempts)
    {
      WaitsFitTotal(backoff, Least(reconnectCount, backoff.maxAttempts));
    }
  }

  /** A provider's first run, and then a second start: it begins a worker unless the run passed the limit. */
  method RunThenStart(backoff: Backoff, events: nat -> Event) returns (second: StartResult)
    requires ValidBackoff(backoff)
    ensures second == if RunOutcome(backoff.maxAttempts, Delays(backoff), 0, events, 0).count > backoff.maxAttempts
                      then Terminated else Spawned
    ensures (forall k: nat :: !Stops(events(k))) ==> second.Terminated?
  {
    var provider := new BaseProvider(backoff);
    var first := provider.Start();
    provider.Run(events);
    second := provider.Start();
    LimitPassedExactlyWhen(backoff.maxAttempts, Delays(backoff), 0, events, 0);
  }

  /** A provider's first run, and then its destruction: it ends the program exactly if the run passed the limit. */
  method RunThenDestroy(backoff: Backoff, events: nat -> Event) returns (ended: bool)
    requires ValidBackoff(backoff)
    ensures ended <==>
            RunOutcome(backoff.maxAttempts, Delays(backoff), 0, events, 0).count > backoff.maxAttempts
    ensures (forall k: nat :: !Stops(events(k))) ==> ended
  {
    var provider := new BaseProvider(backoff);
    var first := provider.Start();
    provider.Run(events);
    ended := provider.Destroy();
    LimitPassedExactlyWhen(backoff.maxAttempts, Delays(backoff), 0, events, 0);
  }

  lemma {:induction false} SumOfPrefix(delay: nat -> nat, n: nat, m: nat)
    requires n <= m
    ensures Sum(Schedule(delay, n)) <= Sum(Schedule(delay, m))
    decreases m - n
  {
    if n == m {
    } else {
      SumOfPrefix(delay, n, m - 1);
      SumSnoc(Schedule(delay, m - 1), delay(m));
    }
  }

  lemma WaitsFitTotal(b: Backoff, n: nat)
    requires n <= b.maxAttempts
    ensures Sum(Schedule(Delays(b), n)) <= TotalMs(b, b.maxAttempts)
  {
    SumOfPrefix(Delays(b), n, b.maxAttempts);
    ScheduleTotal(b, b.maxAttempts);
  }
}
