/**
 The index arithmetic of the ring: `pos & (Capacity - 1)`, the compile-time test
 `(Capacity & (Capacity - 1)) == 0`, and what both mean on 64-bit counters that wrap.
 */
module RingIndex {
  import opened Arithmetic

  /** Bitwise conjunction of two unsigned integers, bit by bit from the low end. */
  function And(a: nat, b: nat): (r: nat)
    ensures r <= b
    decreases b
  {
    if b == 0 then 0 else (if a % 2 == 1 && b % 2 == 1 then 1 else 0) + 2 * And(a / 2, b / 2)
  }

  ghost predicate IsPowerOfTwo(c: nat) {
    exists k: nat :: c == Pow2(k)
  }

  /** The static assertion of the queue, for a nonzero capacity. */
  predicate ValidCapacity(capacity: nat) {
    capacity > 0 && And(capacity, capacity - 1) == 0
  }

  /** The cell a position is mapped to. */
  function Slot(capacity: nat, pos: nat): (slot: nat)
    requires capacity > 0
    ensures slot < capacity
  {
    And(pos, capacity - 1)
  }

  lemma {:induction false} AndSelf(m: nat)
    ensures And(m, m) == m
  {
    if m == 0 {
    } else {
      AndSelf(m / 2);
    }
  }

  // ----- The mask is the remainder -----

  lemma AndOdd(p: nat, mask: nat)
    ensures And(p, 2 * mask + 1) == p % 2 + 2 * And(p / 2, mask)
  {
    assert (2 * mask + 1) / 2 == mask && (2 * mask + 1) % 2 == 1;
  }

  function LowBits(p: nat, k: nat): nat {
    if k == 0 then 0 else p % 2 + 2 * LowBits(p / 2, k - 1)
  }

  lemma {:induction false} MaskIsLowBits(p: nat, k: nat)
    ensures And(p, Pow2(k) - 1) == LowBits(p, k)
  {
    if k == 0 {
    } else {
      MaskIsLowBits(p / 2, k - 1);
      AndOdd(p, Pow2(k - 1) - 1);
    }
  }

  lemma {:induction false} LowBitsQuotient(p: nat, k: nat) returns (q: nat)
    ensures p == q * Pow2(k) + LowBits(p, k) && LowBits(p, k) < Pow2(k)
  {
    if k == 0 {
      q := p;
    } else {
      q := LowBitsQuotient(p / 2, k - 1);
      assert q * Pow2(k) == 2 * (q * Pow2(k - 1));
    }
  }

  /** Masking with 2^k - 1 takes the remainder modulo 2^k. */
  lemma MaskIsRemainder(p: nat, k: nat)
    ensures And(p, Pow2(k) - 1) == p % Pow2(k)
  {
    MaskIsLowBits(p, k);
    var q := LowBitsQuotient(p, k);
    ModUnique(p, Pow2(k), q, LowBits(p, k));
  }

  /** The static assertion accepts exactly the powers of two (and zero, which has no cell at all). */
  lemma {:induction false} CapacityCheckIsPowerOfTwo(c: nat)
    requires c > 0
    ensures ValidCapacity(c) <==> IsPowerOfTwo(c)
  {
    if c == 1 {
      assert c == Pow2(0);
    } else if c % 2 == 1 {
      var m := c / 2;
      AndSelf(m);
      assert And(c, c - 1) == 2 * And(m, m);
      forall k: nat ensures c != Pow2(k) {
      }
    } else {
      var m := c / 2;
      CapacityCheckIsPowerOfTwo(m);
      assert (c - 1) / 2 == m - 1;
      assert And(c, c - 1) == 2 * And(m, m - 1);
      if ValidCapacity(c) {
        var k: nat :| m == Pow2(k);
        assert c == Pow2(k + 1);
      }
      if IsPowerOfTwo(c) {
        var k: nat :| c == Pow2(k);
        assert m == Pow2(k - 1);
      }
    }
  }

  lemma SlotIsRemainder(capacity: nat, pos: nat)
    requires ValidCapacity(capacity)
    ensures Slot(capacity, pos) == pos % capacity
  {
    CapacityCheckIsPowerOfTwo(capacity);
    var k: nat :| capacity == Pow2(k);
    MaskIsRemainder(pos, k);
  }

  /** Any `capacity` consecutive positions use distinct cells. */
  lemma SlotDistinct(capacity: nat, p: nat, q: nat)
    requires ValidCapacity(capacity)
    requires p < q < p + capacity || q < p < q + capacity
    ensures Slot(capacity, p) != Slot(capacity, q)
  {
    SlotIsRemainder(capacity, p);
    SlotIsRemainder(capacity, q);
    ModDistinct(p, q, capacity);
  }

  /** One lap later a position is back in its cell. */
  lemma SlotNextLap(capacity: nat, p: nat)
    requires ValidCapacity(capacity)
    ensures Slot(capacity, p + capacity) == Slot(capacity, p)
  {
    SlotIsRemainder(capacity, p);
    SlotIsRemainder(capacity, p + capacity);
    ModShift(p, capacity, 1);
  }

  /** Every cell belongs to exactly one position of a window; this is the one for the cell of `pos`. */
  lemma WindowPosition(capacity: nat, base: nat, pos: nat) returns (p: nat)
    requires ValidCapacity(capacity)
    ensures base <= p < base + capacity
    ensures Slot(capacity, p) == Slot(capacity, pos)
  {
    p := base + (pos - base) % capacity;
    var k := (pos - base) / capacity;
    assert pos - base == k * capacity + (pos - base) % capacity;
    assert p + k * capacity == pos;
    ModShift(p, capacity, k);
    SlotIsRemainder(capacity, p);
    SlotIsRemainder(capacity, pos);
  }

  // ----- 64-bit counters -----

  /** A `size_t` holding an unbounded counter. */
  function Word(x: nat): (w: nat)
    ensures w < WORD
  {
    x % WORD
  }

  /** `(intptr_t)a - (intptr_t)b`, in two's complement. */
  function SignedDiff(a: nat, b: nat): int {
    var d := (a - b) % WORD;
    if d >= WORD / 2 then d - WORD else d
  }

  /** Wrapping the counter at 2^64 does not move it to another cell. */
  lemma SlotSurvivesWrap(capacity: nat, pos: nat)
    requires ValidCapacity(capacity) && capacity <= WORD
    ensures Slot(capacity, Word(pos)) == Slot(capacity, pos)
  {
    SlotIsRemainder(capacity, pos);
    SlotIsRemainder(capacity, Word(pos));
    CapacityCheckIsPowerOfTwo(capacity);
    var k: nat :| capacity == Pow2(k);
    WordIsPowerOfTwo();
    Pow2Monotone(k, 64);
    Pow2Add(k, 64 - k);
    ModNested(pos, capacity, Pow2(64 - k));
  }

  /** The signed difference of two wrapped counters is the true one while they are less than 2^63 apart. */
  lemma SignedDiffIsTrueDiff(x: nat, y: nat)
    requires x < y + WORD / 2 && y <= x + WORD / 2
    ensures SignedDiff(Word(x), Word(y)) == x - y
  {
    WrapDifference(x, y, WORD);
    SmallResidue(x - y, WORD);
  }

  /** Two wrapped counters are equal only if the counters are, while they are less than a full lap of the word apart. */
  lemma EqualWords(x: nat, y: nat)
    requires x < y + WORD && y < x + WORD
    ensures Word(x) == Word(y) <==> x == y
  {
    if x != y {
      ModDistinct(x, y, WORD);
    }
  }
}
