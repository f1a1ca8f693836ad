/**
 What the duplicate detector remembers, as functions of the stream it has seen, and how its
 answers compare with those of a detector that never forgets.
 */
module HashDetector {
  import opened Arithmetic

  type Hash = nat

  /** The fields of the manager: the hash set, the ring of recent ids, and the two counters. */
  datatype Detector = Detector(memory: set<Hash>, ring: seq<Hash>, index: nat, counter: nat)

  function Elements(s: seq<Hash>): set<Hash> {
    set x | x in s
  }

  /** After construction and the initial call of Init: an empty set and a zero-filled ring. */
  function Fresh(capacity: nat): Detector {
    Detector({}, seq(capacity, _ => 0), 0, 0)
  }

  /** Zeroing the first `n` bytes of an id in memory clears its low bytes. */
  function ClearLowBytes(h: Hash, n: nat): Hash {
    RoundDown(h, Pow2(8 * n))
  }

  function RoundDown(h: nat, m: nat): nat
    requires m > 0
  {
    (h / m) * m
  }

  /**
   What Init leaves in the ring: resizing keeps the old entries and appends zeros, and then as many
   bytes as the ring has entries, an eighth of its 64-bit entries, are cleared.
   */
  function Refilled(ring: seq<Hash>, size: nat): (r: seq<Hash>)
    ensures |r| == size
  {
    seq(size, i requires 0 <= i < size =>
      var kept := if i < |ring| then ring[i] else 0;
      if i < size / 8 then 0 else if i == size / 8 then ClearLowBytes(kept, size % 8) else kept)
  }

  /** A first call leaves zeros; any call does exactly if the entries past the first eighth were zero or small. */
  lemma RefillClearsExactlyWhen(ring: seq<Hash>, size: nat)
    ensures (forall i :: 0 <= i < size ==> Refilled(ring, size)[i] == 0) <==>
            forall i :: size / 8 <= i < size && i < |ring| ==>
              if i == size / 8 then ring[i] < Pow2(8 * (size % 8)) else ring[i] == 0
    ensures ring == [] ==> Refilled(ring, size) == seq(size, _ => 0)
  {
    ClearedToZero(0, size % 8);
    forall i | size / 8 <= i < size && i < |ring|
      ensures Refilled(ring, size)[i] == 0 <==>
              if i == size / 8 then ring[i] < Pow2(8 * (size % 8)) else ring[i] == 0
    {
      ClearedToZero(ring[i], size % 8);
    }
  }

  /** Entry by entry: cleared, cut, kept, or appended. The cut entry loses its low bytes and nothing else. */
  lemma RefilledEntries(ring: seq<Hash>, size: nat, i: nat)
    requires i < size
    ensures i < size / 8 || i >= |ring| ==> Refilled(ring, size)[i] == 0
    ensures size / 8 < i < |ring| ==> Refilled(ring, size)[i] == ring[i]
    ensures i == size / 8 && i < |ring| ==>
              var m := Pow2(8 * (size % 8));
              Refilled(ring, size)[i] % m == 0 && Refilled(ring, size)[i] <= ring[i] < Refilled(ring, size)[i] + m
  {
    if i >= |ring| {
      ClearedToZero(0, size % 8);
    } else {
      RoundDownIsBelow(ring[i], Pow2(8 * (size % 8)));
    }
  }

  lemma RoundDownIsBelow(h: nat, m: nat)
    requires m > 0
    ensures RoundDown(h, m) % m == 0 && RoundDown(h, m) <= h < RoundDown(h, m) + m
  {
    DivMod(h, m);
    ModUnique(RoundDown(h, m), m, h / m, 0);
  }

  lemma ClearedToZero(h: Hash, n: nat)
    ensures ClearLowBytes(h, n) == 0 <==> h < Pow2(8 * n)
  {
    RoundedToZero(h, Pow2(8 * n));
  }

  lemma RoundedToZero(h: nat, m: nat)
    requires m > 0
    ensures RoundDown(h, m) == 0 <==> h < m
  {
    DivMod(h, m);
    MulBounds(h / m, m);
  }

  function PushRing(d: Detector, h: Hash): (r: Detector)
    requires |d.ring| > 0
    ensures |r.ring| == |d.ring|
  {
    var i := (d.index + 1) % |d.ring|;
    d.(ring := d.ring[i := h], index := i)
  }

  function CountOne(d: Detector, max: nat): (r: Detector)
    ensures |r.ring| == |d.ring|
  {
    if d.counter + 1 < max then d.(counter := d.counter + 1)
    else d.(memory := Elements(d.ring), counter := 0)
  }

  function Update(d: Detector, max: nat, h: Hash): (r: Detector)
    requires |d.ring| > 0
    ensures |r.ring| == |d.ring|
  {
    if h in d.memory then d
    else CountOne(PushRing(d.(memory := d.memory + {h}), h), max)
  }

  // ----- Whole streams -----

  function Feed(capacity: nat, max: nat, hs: seq<Hash>): (d: Detector)
    requires capacity > 0
    ensures |d.ring| == capacity
  {
    if hs == [] then Fresh(capacity) else Update(Feed(capacity, max, hs[..|hs| - 1]), max, hs[|hs| - 1])
  }

  /** The ids answered "new", in order. */
  function Accepted(capacity: nat, max: nat, hs: seq<Hash>): seq<Hash>
    requires capacity > 0
  {
    if hs == [] then []
    else
      var before, h := hs[..|hs| - 1], hs[|hs| - 1];
      var acc := Accepted(capacity, max, before);
      if h in Feed(capacity, max, before).memory then acc else acc + [h]
  }

  function Answers(capacity: nat, max: nat, hs: seq<Hash>): (r: seq<bool>)
    requires capacity > 0
    ensures |r| == |hs|
  {
    if hs == [] then []
    else
      var before := hs[..|hs| - 1];
      Answers(capacity, max, before) + [hs[|hs| - 1] !in Feed(capacity, max, before).memory]
  }

  // ----- What is remembered -----

  /** How many of the last accepted ids are in memory after `n` acceptances. */
  function Remembered(n: nat, capacity: nat, max: nat): (w: nat)
    requires max > 0
    ensures w <= n
  {
    if n < max || n <= capacity + n % max then n else capacity + n % max
  }

  /** A reset found the ring not yet full, so its zero fill went into the set. */
  predicate ZeroLeaked(n: nat, capacity: nat, max: nat)
    requires max > 0
  {
    n >= max && n - n % max < capacity
  }

  function Last(acc: seq<Hash>, w: nat): seq<Hash>
    requires w <= |acc|
  {
    acc[|acc| - w..]
  }

  function Window(acc: seq<Hash>, capacity: nat, max: nat): set<Hash>
    requires max > 0
  {
    Elements(Last(acc, Remembered(|acc|, capacity, max))) + if ZeroLeaked(|acc|, capacity, max) then {0} else {}
  }

  /** The k-th accepted id sits in slot (k + 1) mod capacity until it is overwritten; other slots are still zero. */
  ghost predicate RingTracks(ring: seq<Hash>, acc: seq<Hash>)
    requires |ring| > 0
  {
    && (forall k: nat :: |acc| - |ring| <= k < |acc| ==> ring[(k + 1) % |ring|] == acc[k])
    && (|acc| < |ring| ==> ring[0] == 0 && forall s :: |acc| < s < |ring| ==> ring[s] == 0)
  }

  ghost predicate Tracks(d: Detector, acc: seq<Hash>, max: nat)
    requires max > 0
  {
    && |d.ring| > 0
    && d.counter == |acc| % max
    && d.index == |acc| % |d.ring|
    && RingTracks(d.ring, acc)
    && d.memory == Window(acc, |d.ring|, max)
  }

  lemma ModSucc(n: nat, m: nat)
    requires m > 0
    ensures (n + 1) % m == if n % m + 1 < m then n % m + 1 else 0
  {
    DivMod(n, m);
    if n % m + 1 < m {
      ModUnique(n + 1, m, n / m, n % m + 1);
    } else {
      assert n + 1 == (n / m + 1) * m;
      ModUnique(n + 1, m, n / m + 1, 0);
    }
  }

  lemma RingStep(ring: seq<Hash>, acc: seq<Hash>, h: Hash)
    requires |ring| > 0 && RingTracks(ring, acc)
    ensures RingTracks(ring[(|acc| + 1) % |ring| := h], acc + [h])
  {
    var cap, n := |ring|, |acc|;
    var slot := (n + 1) % cap;
    var ring' := ring[slot := h];
    forall k: nat | n + 1 - cap <= k < n + 1
      ensures ring'[(k + 1) % cap] == (acc + [h])[k]
    {
      if k < n {
        ModDistinct(k + 1, n + 1, cap);
        assert ring[(k + 1) % cap] == acc[k];
      }
    }
    if n + 1 < cap {
      ModUnique(n + 1, cap, 0, n + 1);
    }
  }

  lemma SlotOfRing(n: nat, cap: nat, s: nat) returns (k: nat)
    requires 0 < cap <= n && s < cap
    ensures n - cap <= k < n && (k + 1) % cap == s
  {
    var base := n - cap + 1;
    k := n - cap + (s - base) % cap;
    DivMod(s - base, cap);
    var q := (s - base) / cap;
    assert k + 1 == s + (-q) * cap;
    ModShift(s, cap, -q);
    ModUnique(s, cap, 0, s);
  }

  /** The ring holds exactly the last accepted ids, and a zero as long as it was never filled. */
  lemma RingIsLast(ring: seq<Hash>, acc: seq<Hash>)
    requires |ring| > 0 && RingTracks(ring, acc)
    ensures Elements(ring) == Elements(Last(acc, if |acc| < |ring| then |acc| else |ring|)) +
                              if |acc| < |ring| then {0} else {}
  {
    var cap, n := |ring|, |acc|;
    var last := Last(acc, if n < cap then n else cap);
    forall x | x in last ensures x in ring {
      var i :| 0 <= i < |last| && last[i] == x;
      var k := n - |last| + i;
      assert ring[(k + 1) % cap] == acc[k];
    }
    forall s | 0 <= s < cap ensures ring[s] in last || (n < cap && ring[s] == 0) {
      if n >= cap {
        var k := SlotOfRing(n, cap, s);
        assert ring[(k + 1) % cap] == acc[k] == last[k - (n - cap)];
      } else if 0 < s <= n {
        ModUnique(s, cap, 0, s);
        assert ring[((s - 1) + 1) % cap] == acc[s - 1] == last[s - 1];
      }
    }
  }

  lemma ElementsSnoc(s: seq<Hash>, h: Hash)
    ensures Elements(s + [h]) == Elements(s) + {h}
  {
  }

  /** Between resets the window grows by the new id. */
  lemma WindowGrows(acc: seq<Hash>, cap: nat, max: nat, h: Hash)
    requires max > 0 && |acc| % max + 1 < max
    ensures Window(acc + [h], cap, max) == Window(acc, cap, max) + {h}
  {
    var n := |acc|;
    ModSucc(n, max);
    if n < max {
      ModUnique(n, max, 0, n);
    }
    var w := Remembered(n, cap, max);
    assert Last(acc + [h], w + 1) == Last(acc, w) + [h];
    ElementsSnoc(Last(acc, w), h);
  }

  /** A reset leaves what the ring holds. */
  lemma WindowResets(acc: seq<Hash>, cap: nat, max: nat, h: Hash)
    requires max > 0 && |acc| % max + 1 >= max
    ensures Window(acc + [h], cap, max) ==
            Elements(Last(acc + [h], if |acc| + 1 < cap then |acc| + 1 else cap)) + if |acc| + 1 < cap then {0} else {}
  {
    ModSucc(|acc|, max);
    if |acc| < max {
      ModUnique(|acc|, max, 0, |acc|);
    }
  }

  lemma UpdateAccepts(d: Detector, n: nat, max: nat, h: Hash)
    requires max > 0 && |d.ring| > 0 && h !in d.memory
    requires d.counter == n % max && d.index == n % |d.ring|
    ensures Update(d, max, h).counter == (n + 1) % max
    ensures Update(d, max, h).index == (n + 1) % |d.ring|
    ensures Update(d, max, h).ring == d.ring[(n + 1) % |d.ring| := h]
    ensures n % max + 1 < max ==> Update(d, max, h).memory == d.memory + {h}
    ensures n % max + 1 >= max ==> Update(d, max, h).memory == Elements(Update(d, max, h).ring)
  {
    ModSucc(n, |d.ring|);
    ModSucc(n, max);
    if d.index + 1 < |d.ring| {
      ModUnique(d.index + 1, |d.ring|, 0, d.index + 1);
    } else {
      ModUnique(|d.ring|, |d.ring|, 1, 0);
    }
  }

  lemma MemoryAfterAccepting(d: Detector, acc: seq<Hash>, max: nat, h: Hash)
    requires max > 0 && Tracks(d, acc, max) && h !in d.memory
    ensures Update(d, max, h).memory == Window(acc + [h], |d.ring|, max)
  {
    UpdateAccepts(d, |acc|, max, h);
    if |acc| % max + 1 < max {
      WindowGrows(acc, |d.ring|, max, h);
    } else {
      RingStep(d.ring, acc, h);
      WindowResets(acc, |d.ring|, max, h);
      RingIsLast(Update(d, max, h).ring, acc + [h]);
    }
  }

  /** Accepting one id moves counter, index, ring and memory on together. */
  lemma AcceptTracks(d: Detector, acc: seq<Hash>, max: nat, h: Hash)
    requires max > 0 && Tracks(d, acc, max) && h !in d.memory
    ensures Tracks(Update(d, max, h), acc + [h], max)
  {
    UpdateAccepts(d, |acc|, max, h);
    RingStep(d.ring, acc, h);
    MemoryAfterAccepting(d, acc, max, h);
  }

  lemma FreshTracks(capacity: nat, max: nat)
    requires capacity > 0 && max > 0
    ensures Tracks(Fresh(capacity), [], max)
  {
    ModUnique(0, max, 0, 0);
    ModUnique(0, capacity, 0, 0);
  }

  /** After any stream, the fields are exactly determined by the accepted ids. */
  lemma {:induction false} FeedTracks(capacity: nat, max: nat, hs: seq<Hash>)
    requires capacity > 0 && max > 0
    ensures Tracks(Feed(capacity, max, hs), Accepted(capacity, max, hs), max)
  {
    if hs == [] {
      FreshTracks(capacity, max);
    } else {
      var before, h := hs[..|hs| - 1], hs[|hs| - 1];
      FeedTracks(capacity, max, before);
      var d := Feed(capacity, max, before);
      if h !in d.memory {
        AcceptTracks(d, Accepted(capacity, max, before), max, h);
      }
    }
  }

  /** One more id: the new state, the new answer, and that the answer is membership in the window. */
  lemma FeedSnoc(capacity: nat, max: nat, hs: seq<Hash>, h: Hash)
    requires capacity > 0 && max > 0
    ensures Feed(capacity, max, hs + [h]) == Update(Feed(capacity, max, hs), max, h)
    ensures Answers(capacity, max, hs + [h]) ==
            Answers(capacity, max, hs) + [h !in Window(Accepted(capacity, max, hs), capacity, max)]
    ensures Feed(capacity, max, hs).memory == Window(Accepted(capacity, max, hs), capacity, max)
  {
    assert (hs + [h])[..|hs|] == hs;
    FeedTracks(capacity, max, hs);
  }

  // ----- Bounds -----

  lemma {:induction false} ElementsBound(s: seq<Hash>)
    ensures |Elements(s)| <= |s|
  {
    if s == [] {
    } else {
      var front, x := s[..|s| - 1], s[|s| - 1];
      ElementsBound(front);
      assert s == front + [x];
      ElementsSnoc(front, x);
    }
  }

  /** After every call the set holds at most capacity + max - 1 ids. */
  lemma MemoryBound(capacity: nat, max: nat, hs: seq<Hash>)
    requires capacity > 0 && max > 0
    ensures |Feed(capacity, max, hs).memory| <= capacity + max - 1
  {
    var acc := Accepted(capacity, max, hs);
    FeedTracks(capacity, max, hs);
    var w := Remembered(|acc|, capacity, max);
    ElementsBound(Last(acc, w));
    DivMod(|acc|, max);
    if ZeroLeaked(|acc|, capacity, max) {
      var known := Elements(Last(acc, w));
      assert |known + {0}| <= |known| + 1;
    }
  }

  function UpTo(n: nat): (s: seq<Hash>)
    ensures |s| == n && forall i :: 0 <= i < n ==> s[i] == i + 1
  {
    if n == 0 then [] else UpTo(n - 1) + [n]
  }

  lemma NewIsAccepted(capacity: nat, max: nat, hs: seq<Hash>, h: Hash)
    requires capacity > 0 && max > 0 && h !in hs && h != 0
    requires Accepted(capacity, max, hs) == hs
    ensures Accepted(capacity, max, hs + [h]) == hs + [h]
  {
    assert (hs + [h])[..|hs|] == hs;
    FeedTracks(capacity, max, hs);
    WindowWithin(hs, capacity, max, h);
  }

  lemma WindowWithin(acc: seq<Hash>, capacity: nat, max: nat, h: Hash)
    requires max > 0
    ensures h in Window(acc, capacity, max) ==> h in acc || h == 0
  {
  }

  lemma {:induction false} UpToIsAccepted(capacity: nat, max: nat, n: nat)
    requires capacity > 0 && max > 0
    ensures Accepted(capacity, max, UpTo(n)) == UpTo(n)
  {
    if n == 0 {
    } else {
      UpToIsAccepted(capacity, max, n - 1);
      NewIsAccepted(capacity, max, UpTo(n - 1), n);
    }
  }

  lemma {:induction false} DistinctElements(s: seq<Hash>)
    requires forall i, j :: 0 <= i < j < |s| ==> s[i] != s[j]
    ensures |Elements(s)| == |s|
  {
    if s == [] {
    } else {
      var front, x := s[..|s| - 1], s[|s| - 1];
      DistinctElements(front);
      assert s == front + [x];
      ElementsSnoc(front, x);
    }
  }

  lemma FullLaps(capacity: nat, max: nat)
    requires capacity > 0 && max > 0
    ensures var n := capacity * max + max - 1;
            && n % max == max - 1 && n >= max - 1 + capacity
            && Remembered(n, capacity, max) == capacity + max - 1 && !ZeroLeaked(n, capacity, max)
  {
    var n := capacity * max + max - 1;
    MulBounds(max, capacity);
    ModUnique(n, max, capacity, max - 1);
    assert n - n % max == capacity * max;
  }

  lemma WindowSize(acc: seq<Hash>, capacity: nat, max: nat)
    requires max > 0 && !ZeroLeaked(|acc|, capacity, max)
    requires forall i, j :: 0 <= i < j < |acc| ==> acc[i] != acc[j]
    ensures |Window(acc, capacity, max)| == Remembered(|acc|, capacity, max)
  {
    var last := Last(acc, Remembered(|acc|, capacity, max));
    DistinctElements(last);
    assert Window(acc, capacity, max) == Elements(last);
  }

  lemma MemoryOfNewIds(capacity: nat, max: nat, n: nat)
    requires capacity > 0 && max > 0 && !ZeroLeaked(n, capacity, max)
    ensures |Feed(capacity, max, UpTo(n)).memory| == Remembered(n, capacity, max)
  {
    UpToIsAccepted(capacity, max, n);
    FeedTracks(capacity, max, UpTo(n));
    WindowSize(UpTo(n), capacity, max);
  }

  /** A stream of new ids, one call short of a reset, fills the memory to the bound, for every capacity. */
  lemma MemoryBoundIsReached(capacity: nat, max: nat)
    requires capacity > 0 && max > 0
    ensures |Feed(capacity, max, UpTo(capacity * max + max - 1)).memory| == capacity + max - 1
  {
    FullLaps(capacity, max);
    MemoryOfNewIds(capacity, max, capacity * max + max - 1);
  }

  /** The documented size, at most `max` ids, is kept on all streams exactly when the ring has one slot. */
  lemma DocumentedSizeExactlyWhen(capacity: nat, max: nat)
    requires capacity > 0 && max > 0
    ensures (forall hs: seq<Hash> :: |Feed(capacity, max, hs).memory| <= max) <==> capacity == 1
  {
    if capacity == 1 {
      forall hs: seq<Hash> ensures |Feed(capacity, max, hs).memory| <= max {
        MemoryBound(capacity, max, hs);
      }
    } else {
      MemoryBoundIsReached(capacity, max);
    }
  }

  lemma InLast(acc: seq<Hash>, w: nat, i: nat)
    requires w <= |acc| && |acc| - w <= i < |acc|
    ensures acc[i] in Last(acc, w)
  {
    assert Last(acc, w)[i - (|acc| - w)] == acc[i];
  }

  lemma NotInLast(acc: seq<Hash>, w: nat, k: nat)
    requires forall i, j :: 0 <= i < j < |acc| ==> acc[i] != acc[j]
    requires w <= |acc| && k < |acc| - w
    ensures acc[k] !in Last(acc, w)
  {
    forall i | 0 <= i < w ensures Last(acc, w)[i] != acc[k] {
      assert Last(acc, w)[i] == acc[|acc| - w + i];
    }
  }

  lemma OutsideWindow(acc: seq<Hash>, i: nat, capacity: nat, max: nat)
    requires capacity > 0 && max > 0 && i < |acc| && acc[i] !in Window(acc, capacity, max)
    ensures |acc| - i > capacity
  {
    var w := Remembered(|acc|, capacity, max);
    if |acc| - w <= i {
      InLast(acc, w, i);
    }
    DivMod(|acc|, max);
  }

  /** An id is accepted a second time only after at least `capacity` other acceptances. */
  lemma {:induction false} EqualAcceptancesAreFarApart(capacity: nat, max: nat, hs: seq<Hash>, i: nat, j: nat)
    requires capacity > 0 && max > 0
    requires i < j < |Accepted(capacity, max, hs)|
    requires Accepted(capacity, max, hs)[i] == Accepted(capacity, max, hs)[j]
    ensures j - i - 1 >= capacity
  {
    var before, h := hs[..|hs| - 1], hs[|hs| - 1];
    var acc := Accepted(capacity, max, before);
    if j < |acc| {
      EqualAcceptancesAreFarApart(capacity, max, before, i, j);
    } else {
      FeedTracks(capacity, max, before);
      assert acc[i] == h && h !in Window(acc, capacity, max);
      OutsideWindow(acc, i, capacity, max);
    }
  }

  lemma RingAt(capacity: nat, max: nat, hs: seq<Hash>, s: nat) returns (k: nat)
    requires capacity > 0 && max > 0 && |Accepted(capacity, max, hs)| >= capacity && s < capacity
    ensures |Accepted(capacity, max, hs)| - capacity <= k < |Accepted(capacity, max, hs)| && (k + 1) % capacity == s
    ensures Feed(capacity, max, hs).ring[s] == Accepted(capacity, max, hs)[k]
  {
    FeedTracks(capacity, max, hs);
    k := SlotOfRing(|Accepted(capacity, max, hs)|, capacity, s);
  }

  /** Once full, the ring holds `capacity` different ids. */
  lemma RingIsDistinct(capacity: nat, max: nat, hs: seq<Hash>, s: nat, s': nat)
    requires capacity > 0 && max > 0 && |Accepted(capacity, max, hs)| >= capacity
    requires s < s' < capacity
    ensures Feed(capacity, max, hs).ring[s] != Feed(capacity, max, hs).ring[s']
  {
    var k := RingAt(capacity, max, hs, s);
    var k' := RingAt(capacity, max, hs, s');
    if Accepted(capacity, max, hs)[k] == Accepted(capacity, max, hs)[k'] {
      EqualAcceptancesAreFarApart(capacity, max, hs, if k < k' then k else k', if k < k' then k' else k);
    }
  }

  // ----- A second call of Init -----

  /** The fill of a call Init(size) does not reach slot `s`, which holds `h` and is kept. */
  predicate Survives(h: Hash, s: nat, size: nat) {
    && s < size && h != 0
    && (s > size / 8 || (s == size / 8 && h >= Pow2(8 * (size % 8))))
  }

  /** A second call leaves a ring of zeros exactly if none of the last accepted ids survives in its slot. */
  lemma SecondInitClearsExactlyWhen(capacity: nat, max: nat, hs: seq<Hash>, size: nat)
    requires capacity > 0 && max > 0
    ensures var acc := Accepted(capacity, max, hs);
            Refilled(Feed(capacity, max, hs).ring, size) == seq(size, _ => 0) <==>
            forall k: nat :: |acc| - capacity <= k < |acc| ==> !Survives(acc[k], (k + 1) % capacity, size)
  {
    FeedTracks(capacity, max, hs);
    SurvivorsAre(Feed(capacity, max, hs).ring, size);
    SurvivorsWereAccepted(Feed(capacity, max, hs).ring, Accepted(capacity, max, hs), size);
  }

  lemma SurvivorsWereAccepted(ring: seq<Hash>, acc: seq<Hash>, size: nat)
    requires |ring| > 0 && RingTracks(ring, acc)
    ensures (forall s :: 0 <= s < |ring| ==> !Survives(ring[s], s, size)) <==>
            forall k: nat :: |acc| - |ring| <= k < |acc| ==> !Survives(acc[k], (k + 1) % |ring|, size)
  {
    if s: nat :| s < |ring| && Survives(ring[s], s, size) {
      var k := SourceOf(ring, acc, s);
      assert Survives(acc[k], (k + 1) % |ring|, size);
    } else {
      forall k: nat | |acc| - |ring| <= k < |acc|
        ensures !Survives(acc[k], (k + 1) % |ring|, size)
      {
        assert ring[(k + 1) % |ring|] == acc[k];
      }
    }
  }

  lemma SurvivorsAre(ring: seq<Hash>, size: nat)
    ensures Refilled(ring, size) == seq(size, _ => 0) <==> forall s :: 0 <= s < |ring| ==> !Survives(ring[s], s, size)
  {
    RefillClearsExactlyWhen(ring, size);
    var zeros := seq(size, _ => 0);
    assert Refilled(ring, size) == zeros <==> forall i :: 0 <= i < size ==> Refilled(ring, size)[i] == 0;
  }

  /** A nonzero entry is an accepted id. */
  lemma SourceOf(ring: seq<Hash>, acc: seq<Hash>, s: nat) returns (k: nat)
    requires |ring| > 0 && RingTracks(ring, acc) && s < |ring| && ring[s] != 0
    ensures |acc| - |ring| <= k < |acc| && (k + 1) % |ring| == s && ring[s] == acc[k]
  {
    if |acc| >= |ring| {
      k := SlotOfRing(|acc|, |ring|, s);
    } else {
      k := s - 1;
      ModUnique(s, |ring|, 0, s);
    }
  }

  /** For every capacity and reset size there is a stream after which a second call of the same size keeps an id. */
  lemma SecondInitKeepsAnId(capacity: nat, max: nat) returns (hs: seq<Hash>)
    requires capacity > 0 && max > 0
    ensures Refilled(Feed(capacity, max, hs).ring, capacity) != seq(capacity, _ => 0)
  {
    if capacity == 1 {
      hs := [256];
      assert Accepted(capacity, max, []) == [];
      FeedTracks(capacity, max, []);
      NewIsAccepted(capacity, max, [], 256);
      assert [] + [256] == hs;
      assert Pow2(8) == 256;
      KeptAt(capacity, max, hs, 0);
    } else {
      hs := UpTo(capacity);
      UpToIsAccepted(capacity, max, capacity);
      ModUnique(capacity - 1, capacity, 0, capacity - 1);
      KeptAt(capacity, max, hs, capacity - 2);
    }
  }

  lemma KeptAt(capacity: nat, max: nat, hs: seq<Hash>, k: nat)
    requires capacity > 0 && max > 0 && Accepted(capacity, max, hs) == hs
    requires |hs| - capacity <= k < |hs| && Survives(hs[k], (k + 1) % capacity, capacity)
    ensures Refilled(Feed(capacity, max, hs).ring, capacity) != seq(capacity, _ => 0)
  {
    SecondInitClearsExactlyWhen(capacity, max, hs, capacity);
  }

  // ----- Comparison with a detector that never forgets -----

  /** The distinct ids of a stream, in the order in which they first appear. */
  function Firsts(hs: seq<Hash>): seq<Hash> {
    if hs == [] then []
    else
      var before, h := hs[..|hs| - 1], hs[|hs| - 1];
      if h in before then Firsts(before) else Firsts(before) + [h]
  }

  function IdealAnswers(hs: seq<Hash>): (r: seq<bool>)
    ensures |r| == |hs|
    ensures forall i :: 0 <= i < |hs| ==> r[i] == (hs[i] !in hs[..i])
  {
    seq(|hs|, i requires 0 <= i < |hs| => hs[i] !in hs[..i])
  }

  /** How many ids were first seen after `h` was. */
  function OthersSince(acc: seq<Hash>, h: Hash): (n: nat)
    requires h in acc
    ensures n < |acc| && acc[|acc| - 1 - n] == h
    ensures forall k :: |acc| - 1 - n < k < |acc| ==> acc[k] != h
  {
    if acc[|acc| - 1] == h then 0 else 1 + OthersSince(acc[..|acc| - 1], h)
  }

  /**
   The repeat comes soon enough, in numbers a caller can count: fewer other new ids have arrived
   since than the detector still remembers. A new id must not be the leaked zero.
   */
  predicate InTime(acc: seq<Hash>, h: Hash, capacity: nat, max: nat)
    requires max > 0
  {
    if h in acc then
      OthersSince(acc, h) < Remembered(|acc|, capacity, max) || (h == 0 && ZeroLeaked(|acc|, capacity, max))
    else !(h == 0 && ZeroLeaked(|acc|, capacity, max))
  }

  ghost predicate AllInTime(capacity: nat, max: nat, hs: seq<Hash>)
    requires max > 0
  {
    forall i :: 0 <= i < |hs| ==> InTime(Firsts(hs[..i]), hs[i], capacity, max)
  }

  lemma {:induction false} FirstsElements(hs: seq<Hash>)
    ensures forall x :: x in Firsts(hs) <==> x in hs
  {
    if hs == [] {
    } else {
      var before := hs[..|hs| - 1];
      FirstsElements(before);
      assert hs == before + [hs[|hs| - 1]];
    }
  }

  lemma {:induction false} FirstsDistinct(hs: seq<Hash>)
    ensures forall i, j :: 0 <= i < j < |Firsts(hs)| ==> Firsts(hs)[i] != Firsts(hs)[j]
  {
    if hs == [] {
    } else {
      FirstsDistinct(hs[..|hs| - 1]);
      FirstsElements(hs[..|hs| - 1]);
    }
  }

  /** One call: the window answers as the full history would exactly when the id is in time. */
  lemma WindowAnswers(acc: seq<Hash>, h: Hash, capacity: nat, max: nat)
    requires capacity > 0 && max > 0
    requires forall i, j :: 0 <= i < j < |acc| ==> acc[i] != acc[j]
    ensures (h in Window(acc, capacity, max) <==> h in acc) <==> InTime(acc, h, capacity, max)
  {
    var w := Remembered(|acc|, capacity, max);
    if h in acc {
      var k := |acc| - 1 - OthersSince(acc, h);
      if k >= |acc| - w {
        InLast(acc, w, k);
      } else {
        NotInLast(acc, w, k);
      }
    }
  }

  lemma {:induction false} AgreementKeepsAccepted(capacity: nat, max: nat, hs: seq<Hash>)
    requires capacity > 0
    requires Answers(capacity, max, hs) == IdealAnswers(hs)
    ensures Accepted(capacity, max, hs) == Firsts(hs)
  {
    if hs == [] {
    } else {
      var before := hs[..|hs| - 1];
      PrefixAgreement(capacity, max, hs);
      AgreementKeepsAccepted(capacity, max, before);
      assert Answers(capacity, max, hs)[|hs| - 1] == IdealAnswers(hs)[|hs| - 1];
    }
  }

  lemma SnocEqual<T>(a: seq<T>, x: T, b: seq<T>, y: T)
    requires |a| == |b|
    ensures a + [x] == b + [y] <==> a == b && x == y
  {
    assert (a + [x])[..|a|] == a && (b + [y])[..|b|] == b;
    assert (a + [x])[|a|] == x && (b + [y])[|b|] == y;
  }

  lemma IdealSnoc(hs: seq<Hash>)
    requires hs != []
    ensures IdealAnswers(hs) == IdealAnswers(hs[..|hs| - 1]) + [hs[|hs| - 1] !in hs[..|hs| - 1]]
  {
    var before := hs[..|hs| - 1];
    forall i | 0 <= i < |before| ensures IdealAnswers(hs)[i] == IdealAnswers(before)[i] {
      assert hs[..i] == before[..i] && hs[i] == before[i];
    }
    assert IdealAnswers(hs)[..|before|] == IdealAnswers(before);
  }

  lemma PrefixAgreement(capacity: nat, max: nat, hs: seq<Hash>)
    requires capacity > 0 && hs != []
    ensures var before, h := hs[..|hs| - 1], hs[|hs| - 1];
            Answers(capacity, max, hs) == IdealAnswers(hs) <==>
            && Answers(capacity, max, before) == IdealAnswers(before)
            && (h !in Feed(capacity, max, before).memory <==> h !in before)
  {
    var before, h := hs[..|hs| - 1], hs[|hs| - 1];
    IdealSnoc(hs);
    var answer := h !in Feed(capacity, max, before).memory;
    SnocEqual(Answers(capacity, max, before), answer, IdealAnswers(before), h !in before);
  }

  lemma AllInTimeSnoc(capacity: nat, max: nat, hs: seq<Hash>)
    requires max > 0 && hs != []
    ensures AllInTime(capacity, max, hs) <==>
            AllInTime(capacity, max, hs[..|hs| - 1]) && InTime(Firsts(hs[..|hs| - 1]), hs[|hs| - 1], capacity, max)
  {
    var before := hs[..|hs| - 1];
    assert forall i :: 0 <= i < |before| ==> hs[..i] == before[..i] && hs[i] == before[i];
  }

  /** One call, knowing that all earlier answers were right. */
  lemma NextAnswer(capacity: nat, max: nat, hs: seq<Hash>, h: Hash)
    requires capacity > 0 && max > 0 && Answers(capacity, max, hs) == IdealAnswers(hs)
    ensures (h !in Feed(capacity, max, hs).memory <==> h !in hs) <==> InTime(Firsts(hs), h, capacity, max)
  {
    AgreementKeepsAccepted(capacity, max, hs);
    FeedTracks(capacity, max, hs);
    FirstsDistinct(hs);
    FirstsElements(hs);
    WindowAnswers(Firsts(hs), h, capacity, max);
  }

  /** The detector answers like one that never forgets exactly on the streams that are in time throughout. */
  lemma {:induction false} AgreesExactlyWhenInTime(capacity: nat, max: nat, hs: seq<Hash>)
    requires capacity > 0 && max > 0
    ensures Answers(capacity, max, hs) == IdealAnswers(hs) <==> AllInTime(capacity, max, hs)
  {
    if hs == [] {
    } else {
      var before, h := hs[..|hs| - 1], hs[|hs| - 1];
      AgreesExactlyWhenInTime(capacity, max, before);
      PrefixAgreement(capacity, max, hs);
      AllInTimeSnoc(capacity, max, hs);
      if Answers(capacity, max, before) == IdealAnswers(before) {
        NextAnswer(capacity, max, before, h);
      }
    }
  }

  // ----- The documented promise -----

  /** Every repeat arrives while fewer than `capacity` other ids have been new since its first arrival. */
  ghost predicate WellBehaved(capacity: nat, hs: seq<Hash>) {
    forall i :: 0 <= i < |hs| && hs[i] in Firsts(hs[..i]) ==> OthersSince(Firsts(hs[..i]), hs[i]) < capacity
  }

  /** On well-behaved streams no reset is ever noticed, however many there are. */
  lemma NoResetIsNoticed(capacity: nat, max: nat, hs: seq<Hash>)
    requires 0 < capacity <= max && WellBehaved(capacity, hs)
    ensures Answers(capacity, max, hs) == IdealAnswers(hs)
    ensures Accepted(capacity, max, hs) == Firsts(hs)
  {
    forall i | 0 <= i < |hs|
      ensures InTime(Firsts(hs[..i]), hs[i], capacity, max)
    {
      DivMod(|Firsts(hs[..i])|, max);
      LapIsLong(|Firsts(hs[..i])|, max);
    }
    AgreesExactlyWhenInTime(capacity, max, hs);
    AgreementKeepsAccepted(capacity, max, hs);
  }

  lemma LapIsLong(n: nat, m: nat)
    requires m > 0
    ensures n >= m ==> n - n % m >= m
  {
    DivMod(n, m);
    if n >= m {
      MulBounds(n / m, m);
    }
  }

  lemma {:induction false} FirstsOfDistinct(hs: seq<Hash>)
    requires forall i, j :: 0 <= i < j < |hs| ==> hs[i] != hs[j]
    ensures Firsts(hs) == hs
  {
    if hs == [] {
    } else {
      FirstsOfDistinct(hs[..|hs| - 1]);
    }
  }

  /** A capacity above the reset size lets the zero fill of the ring into the set: id 0 is then called a duplicate. */
  lemma LeakedZeroIsNoticed(capacity: nat, max: nat)
    requires 0 < max < capacity
    ensures WellBehaved(capacity, UpTo(max) + [0])
    ensures Answers(capacity, max, UpTo(max) + [0]) != IdealAnswers(UpTo(max) + [0])
  {
    var hs := UpTo(max) + [0];
    UpToIsNew(max);
    assert hs[..max] == UpTo(max);
    FirstsOfDistinct(UpTo(max));
    ModUnique(max, max, 1, 0);
    assert !InTime(Firsts(hs[..max]), hs[max], capacity, max);
    AgreesExactlyWhenInTime(capacity, max, hs);
  }

  lemma UpToIsNew(n: nat)
    ensures forall i :: 0 <= i < n + 1 ==> (UpTo(n) + [0])[i] !in Firsts((UpTo(n) + [0])[..i])
  {
    var hs := UpTo(n) + [0];
    forall i | 0 <= i < n + 1 ensures hs[i] !in Firsts(hs[..i]) {
      FirstsElements(hs[..i]);
    }
  }

  /** The promise holds for all well-behaved streams exactly when the ring is no larger than the reset size. */
  lemma PromiseNeedsSmallRing(capacity: nat, max: nat)
    requires capacity > 0 && max > 0
    ensures (forall hs: seq<Hash> :: WellBehaved(capacity, hs) ==> Answers(capacity, max, hs) == IdealAnswers(hs))
            <==> capacity <= max
  {
    if capacity <= max {
      forall hs: seq<Hash> | WellBehaved(capacity, hs)
        ensures Answers(capacity, max, hs) == IdealAnswers(hs)
      {
        NoResetIsNoticed(capacity, max, hs);
      }
    } else {
      LeakedZeroIsNoticed(capacity, max);
    }
  }
}
