/**
 Integer arithmetic shared by the models: powers of two, remainders, and the size of a machine word.
 */
module Arithmetic {

  /** One more than the largest unsigned 64-bit value. */
  const WORD: nat := 0x1_0000_0000_0000_0000

  function Pow2(k: nat): (r: nat)
    ensures r > 0
  {
    if k == 0 then 1 else 2 * Pow2(k - 1)
  }

  lemma MulBounds(d: int, m: int)
    requires m > 0
    ensures d >= 1 ==> d * m >= m
    ensures d <= -1 ==> d * m <= -m
  {
  }

  lemma DivMod(x: int, m: int)
    requires m > 0
    ensures x == (x / m) * m + x % m && 0 <= x % m < m
  {
  }

  lemma ModUnique(x: int, m: int, q: int, r: int)
    requires 0 <= r < m && x == q * m + r
    ensures x % m == r
  {
    var d := q - x / m;
    DivMod(x, m);
    assert d * m == x % m - r;
    MulBounds(d, m);
  }

  lemma ModShift(x: int, m: int, k: int)
    requires m > 0
    ensures (x + k * m) % m == x % m
  {
    DivMod(x, m);
    assert x + k * m == (x / m + k) * m + x % m;
    ModUnique(x + k * m, m, x / m + k, x % m);
  }

  lemma ModDistinct(x: int, y: int, m: int)
    requires x < y < x + m || y < x < y + m
    ensures x % m != y % m
  {
    DivMod(x, m);
    DivMod(y, m);
    var d := x / m - y / m;
    assert d * m == (x - y) - (x % m - y % m);
    MulBounds(d, m);
  }

  lemma ModNested(x: int, m: int, k: int)
    requires m > 0 && k > 0 && m * k > 0
    ensures (x % (m * k)) % m == x % m
  {
    var q := x / (m * k);
    var y := x % (m * k);
    assert x == q * (m * k) + y;
    assert q * (m * k) == (q * k) * m;
    ModShift(y, m, q * k);
  }

  lemma {:induction false} Pow2Add(a: nat, b: nat)
    ensures Pow2(a + b) == Pow2(a) * Pow2(b)
  {
    if a == 0 {
    } else {
      Pow2Add(a - 1, b);
      assert Pow2(a + b) == 2 * (Pow2(a - 1) * Pow2(b));
      assert Pow2(a) * Pow2(b) == 2 * (Pow2(a - 1) * Pow2(b));
    }
  }

  lemma {:induction false} Pow2Monotone(a: nat, b: nat)
    requires Pow2(a) <= Pow2(b)
    ensures a <= b
  {
    if a == 0 || b == 0 {
    } else {
      Pow2Monotone(a - 1, b - 1);
    }
  }

  lemma WrapDifference(x: nat, y: nat, w: nat)
    requires w > 0
    ensures (x % w - y % w) % w == (x - y) % w
  {
    DivMod(x, w);
    DivMod(y, w);
    var k := y / w - x / w;
    assert x % w - y % w == (x - y) + k * w;
    ModShift(x - y, w, k);
  }

  lemma SmallResidue(e: int, w: int)
    requires -w < e < w
    ensures e % w == if e >= 0 then e else e + w
  {
    ModUnique(e, w, if e >= 0 then 0 else -1, if e >= 0 then e else e + w);
  }

  lemma WordIsPowerOfTwo()
    ensures WORD == Pow2(64)
  {
    var p8 := Pow2(8);
    assert Pow2(4) == 16;
    assert p8 == 256;
    Pow2Add(8, 8);
    var p16 := Pow2(16);
    assert p16 == 0x1_0000;
    Pow2Add(16, 16);
    var p32 := Pow2(32);
    assert p32 == 0x1_0000_0000;
    Pow2Add(32, 32);
  }
}
