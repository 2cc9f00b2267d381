/** Powers of two and the divisibility facts that prefix arithmetic rests on. */
module Bits {

  /** 2^n. */
  function Pow2(n: nat): (r: nat)
    ensures r >= 1
  {
    if n == 0 then 1 else 2 * Pow2(n - 1)
  }

  lemma {:induction false} Pow2Add(a: nat, b: nat)
    ensures Pow2(a + b) == Pow2(a) * Pow2(b)
  {
    if a > 0 {
      Pow2Add(a - 1, b);
      assert Pow2(a + b) == 2 * Pow2(a - 1 + b);
    }
  }

  lemma {:induction false} Pow2Monotonic(a: nat, b: nat)
    requires a < b
    ensures Pow2(a) < Pow2(b)
  {
    if a + 1 < b {
      Pow2Monotonic(a, b - 1);
    }
  }

  /** Multiplying by a positive factor does not shrink a non-negative number. */
  lemma {:induction false} MulAtLeast(d: int, s: int)
    requires d >= 1 && s >= 0
    ensures d * s >= s
  {
    if d > 1 {
      MulAtLeast(d - 1, s);
      assert d * s == (d - 1) * s + s;
    }
  }

  /** Euclidean division is determined by quotient and remainder. */
  lemma DivModUnique(x: int, s: int, q: int, r: int)
    requires s > 0 && 0 <= r < s && x == q * s + r
    ensures x / s == q && x % s == r
  {
    var q', r' := x / s, x % s;
    assert x == q' * s + r';
    assert (q - q') * s == r' - r by {
      assert q * s - q' * s == (q - q') * s;
    }
    if q > q' {
      MulAtLeast(q - q', s);
    } else if q < q' {
      MulAtLeast(q' - q, s);
    }
  }

  /** The remainder never exceeds the dividend. */
  lemma ModAtMost(x: nat, s: nat)
    requires s > 0
    ensures x % s <= x
  {
    if x < s {
      DivModUnique(x, s, 0, x);
    }
  }

  /** A multiple of s leaves remainder zero and quotient k. */
  lemma MulMod(k: nat, s: nat)
    requires s > 0
    ensures (k * s) % s == 0 && (k * s) / s == k
  {
    DivModUnique(k * s, s, k, 0);
  }

  /** Two distinct multiples of s are at least s apart. */
  lemma MultiplesApart(x: nat, y: nat, s: nat)
    requires s > 0 && x % s == 0 && y % s == 0 && x < y
    ensures x + s <= y
  {
    var i, j := x / s, y / s;
    assert x == i * s && y == j * s;
    assert i < j;
    assert x + s == (i + 1) * s;
  }

  /** A multiple of t * s is a multiple of s. */
  lemma ModOfMultiple(x: nat, t: nat, s: nat)
    requires s > 0 && t > 0 && x % (t * s) == 0
    ensures x % s == 0
  {
    var k := x / (t * s);
    assert x == k * (t * s);
    assert x == (k * t) * s;
    MulMod(k * t, s);
  }

  /** A multiple of s below a multiple n of s ends no later than n. */
  lemma BlockFits(x: nat, s: nat, n: nat)
    requires s > 0 && x % s == 0 && n % s == 0 && x < n
    ensures x + s <= n
  {
    MultiplesApart(x, n, s);
  }

  /** Splitting a block of size 2h at a multiple of 2h: both halves start at multiples of h. */
  lemma HalfMultiples(x: nat, h: nat)
    requires h > 0 && x % (2 * h) == 0
    ensures x % h == 0 && (x + h) % h == 0
    ensures (x + h) % (2 * h) == h
  {
    var k := x / (2 * h);
    assert x == k * (2 * h);
    assert x == (2 * k) * h;
    MulMod(2 * k, h);
    assert x + h == (2 * k + 1) * h;
    MulMod(2 * k + 1, h);
    DivModUnique(x + h, 2 * h, k, h);
  }
}
