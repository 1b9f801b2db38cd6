/** Powers of two, integer base-2 logarithm and the division facts the
    address arithmetic rests on. Addresses are unbounded naturals here; the
    fixed widths (32 and 128 bits) appear as bounds `a < Pow2(w)`. */
module Arith {

  /** 2 to the power n. */
  function Pow2(n: nat): (r: nat)
    ensures r >= 1
  {
    if n == 0 then 1 else 2 * Pow2(n - 1)
  }

  lemma {:induction false} Pow2Add(a: nat, b: nat)
    ensures Pow2(a + b) == Pow2(a) * Pow2(b)
    decreases a
  {
    if a > 0 {
      Pow2Add(a - 1, b);
      assert Pow2(a + b) == 2 * Pow2(a - 1 + b);
    }
  }

  lemma {:induction false} Pow2Monotone(a: nat, b: nat)
    requires a <= b
    ensures Pow2(a) <= Pow2(b)
    decreases b
  {
    if a < b {
      Pow2Monotone(a, b - 1);
    }
  }

  lemma {:induction false} Pow2StrictMonotone(a: nat, b: nat)
    requires a < b
    ensures Pow2(a) < Pow2(b)
  {
    Pow2Monotone(a, b - 1);
  }

  lemma Pow2Injective(a: nat, b: nat)
    requires Pow2(a) == Pow2(b)
    ensures a == b
  {
    if a < b {
      Pow2StrictMonotone(a, b);
    } else if b < a {
      Pow2StrictMonotone(b, a);
    }
  }

  /** Pow2(a) divides Pow2(b) when a <= b. */
  lemma {:induction false} Pow2Divides(a: nat, b: nat)
    requires a <= b
    ensures Pow2(b) % Pow2(a) == 0
    ensures Pow2(b) == Pow2(b - a) * Pow2(a)
  {
    Pow2Add(b - a, a);
    MulMod(Pow2(b - a), Pow2(a));
  }

  lemma {:induction false} Pow2Values()
    ensures Pow2(8) == 256
    ensures Pow2(32) == 4294967296
  {
    Pow2Byte();
    Pow2Add(8, 8);
    Pow2Square(Pow2(16));
    Pow2Add(16, 16);
  }

  lemma Pow2Byte()
    ensures Pow2(8) == 256
  {
    assert Pow2(4) == 16;
  }

  lemma Pow2Square(h: nat)
    requires h == 256 * 256
    ensures h * h == 4294967296
  {
  }

  /** The integer part of log2(n): the exact value that
      `int(math.log(n, 2))` approximates in floating point. */
  function Log2Floor(n: nat): (k: nat)
    requires n >= 1
    ensures Pow2(k) <= n < Pow2(k + 1)
  {
    if n == 1 then 0 else 1 + Log2Floor(n / 2)
  }

  /** The logarithm of an exact power of two is its exponent. */
  lemma {:induction false} Log2FloorOfPow2(k: nat)
    ensures Log2Floor(Pow2(k)) == k
  {
    var j := Log2Floor(Pow2(k));
    assert Pow2(j) <= Pow2(k) < Pow2(j + 1);
    if j < k {
      Pow2Monotone(j + 1, k);
      assert false;
    } else if j > k {
      Pow2Monotone(k + 1, j);
      assert false;
    }
  }

  /** Below 2^m the logarithm is below m. */
  lemma Log2Below(n: nat, m: nat)
    requires 1 <= n < Pow2(m)
    ensures Log2Floor(n) < m
  {
    var k := Log2Floor(n);
    if k >= m {
      Pow2Monotone(m, k);
      assert false;
    }
  }

  /** From 2^m on the logarithm is at least m. */
  lemma Log2AtLeast(n: nat, m: nat)
    requires Pow2(m) <= n
    ensures Log2Floor(n) >= m
  {
    var k := Log2Floor(n);
    if k < m {
      Pow2Monotone(k + 1, m);
      assert false;
    }
  }

  /** The floor logarithm is the one k with 2^k <= n < 2^(k+1). */
  lemma Log2Between(n: nat, k: nat)
    requires Pow2(k) <= n < Pow2(k + 1)
    ensures Log2Floor(n) == k
  {
    Log2AtLeast(n, k);
    Log2Below(n, k + 1);
  }

  // ---------------------------------------------------------------------
  // Division and remainder by a positive divisor.

  lemma {:induction false} MulMod(q: nat, d: nat)
    requires d > 0
    ensures (q * d) % d == 0 && (q * d) / d == q
  {
    DivModUnique(q * d, d, q, 0);
  }

  /** A decomposition a = q*d + r with 0 <= r < d is the one `/` and `%` give. */
  lemma {:induction false} DivModUnique(a: nat, d: nat, q: nat, r: nat)
    requires d > 0 && r < d && a == q * d + r
    ensures a / d == q && a % d == r
  {
    var q', r' := a / d, a % d;
    assert a == q' * d + r';
    if q' < q {
      assert q' * d + d <= q * d by { MulLe(q' + 1, q, d); }
    } else if q' > q {
      assert q * d + d <= q' * d by { MulLe(q + 1, q', d); }
    }
  }

  lemma {:induction false} MulLe(a: nat, b: nat, d: nat)
    requires a <= b
    ensures a * d <= b * d
  {
  }

  /** Rounding a down to a multiple of d gives a multiple of d, at most a,
      that is the largest such. */
  lemma {:induction false} RoundDown(a: nat, d: nat)
    requires d > 0
    ensures a % d <= a
    ensures (a - a % d) % d == 0
    ensures a - a % d <= a < a - a % d + d
    ensures a - a % d == (a / d) * d
  {
    MulMod(a / d, d);
  }

  /** Two distinct multiples of d are at least d apart. */
  lemma {:induction false} AlignedGap(x: nat, y: nat, d: nat)
    requires d > 0 && x % d == 0 && y % d == 0 && x < y
    ensures x + d <= y
  {
    assert x == (x / d) * d && y == (y / d) * d;
    if x / d >= y / d {
      MulLe(y / d, x / d, d);
    }
    MulLe(x / d + 1, y / d, d);
  }

  /** A multiple of m*d is a multiple of d. */
  lemma {:induction false} MultipleOfMultiple(x: nat, m: nat, d: nat)
    requires d > 0 && m > 0 && x % (m * d) == 0
    ensures x % d == 0
  {
    var q := x / (m * d);
    assert x == q * (m * d);
    assert x == (q * m) * d;
    MulMod(q * m, d);
  }

  /** A multiple of d is, modulo 2d, either 0 or d. */
  lemma {:induction false} HalfMod(x: nat, d: nat)
    requires d > 0 && x % d == 0
    ensures x % (2 * d) == 0 || x % (2 * d) == d
  {
    var k := x / d;
    assert x == k * d;
    var h := k / 2;
    assert k == 2 * h + k % 2;
    if k % 2 == 0 {
      assert k * d == h * (2 * d) by { assert k == 2 * h; }
      DivModUnique(x, 2 * d, h, 0);
    } else {
      assert k * d == h * (2 * d) + d by { assert k == 2 * h + 1; }
      DivModUnique(x, 2 * d, h, d);
    }
  }

  /** A multiple of sx is a multiple of every divisor sy of sx. */
  lemma {:induction false} DividesTransitive(x: nat, sx: nat, sy: nat)
    requires sy > 0 && sx > 0 && sx % sy == 0 && x % sx == 0
    ensures x % sy == 0
  {
    var m := sx / sy;
    assert sx == m * sy;
    MultipleOfMultiple(x, m, sy);
  }

  /** Two aligned intervals [xb, xb + sx) and [yb, yb + sy) with sy dividing
      sx that share a point are nested. */
  lemma {:induction false} NestedAligned(xb: nat, sx: nat, yb: nat, sy: nat, a: nat)
    requires sy > 0 && sx > 0 && sx % sy == 0
    requires xb % sx == 0 && yb % sy == 0
    requires xb <= a < xb + sx && yb <= a < yb + sy
    ensures xb <= yb && yb + sy <= xb + sx
  {
    DividesTransitive(xb, sx, sy);
    if yb < xb {
      AlignedGap(yb, xb, sy);
    }
    var q := xb / sx;
    assert xb == q * sx;
    assert xb + sx == (q + 1) * sx;
    MulMod(q + 1, sx);
    DividesTransitive(xb + sx, sx, sy);
    AlignedGap(yb, xb + sx, sy);
  }

  lemma {:induction false} BlockFits(b: nat, s: nat, t: nat)
    requires s > 0 && b % s == 0 && t % s == 0 && b < t
    ensures b + s <= t
  {
    AlignedGap(b, t, s);
  }

  /** Rounding a (below 2^w) down to a multiple of 2^k, k <= w, stays
      below 2^w with room for a whole block. */
  lemma {:induction false} RoundDownInRange(a: nat, k: nat, w: nat)
    requires k <= w && a < Pow2(w)
    ensures a % Pow2(k) <= a
    ensures (a - a % Pow2(k)) % Pow2(k) == 0
    ensures a - a % Pow2(k) <= a < a - a % Pow2(k) + Pow2(k)
    ensures a - a % Pow2(k) + Pow2(k) <= Pow2(w)
  {
    var s, t := Pow2(k), Pow2(w);
    RoundDown(a, s);
    Pow2Divides(k, w);
    BlockFits(a - a % s, s, t);
  }
}
