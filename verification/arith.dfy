/** Facts about integer division, remainders and powers of two that the rest
    of the model relies on. Dafny's `/` and `%` are Euclidean; every use in
    this module has a positive divisor. */
module Arith {

  function Pow2(k: nat): (p: nat)
    ensures p >= 1
  {
    if k == 0 then 1 else 2 * Pow2(k - 1)
  }

  lemma {:induction false} Pow2Add(a: nat, b: nat)
    ensures Pow2(a + b) == Pow2(a) * Pow2(b)
  {
    if a > 0 {
      Pow2Add(a - 1, b);
      assert Pow2(a + b) == 2 * Pow2(a - 1 + b);
    }
  }

  lemma Pow2Split(c: nat, m: nat)
    requires c <= m
    ensures Pow2(m) == Pow2(c) * Pow2(m - c)
  {
    Pow2Add(c, m - c);
  }

  lemma Pow2Monotone(a: nat, b: nat)
    requires a <= b
    ensures Pow2(a) <= Pow2(b)
  {
    if a < b {
      Pow2Monotone(a, b - 1);
    }
  }

  /** The powers of two that name the integer widths of the source. */
  lemma Pow2Values()
    ensures Pow2(8) == 0x100
    ensures Pow2(15) == 0x8000
    ensures Pow2(16) == 0x1_0000
    ensures Pow2(23) == 0x80_0000
    ensures Pow2(24) == 0x100_0000
    ensures Pow2(31) == 0x8000_0000
    ensures Pow2(32) == 0x1_0000_0000
  {
    Pow2Add(4, 4);
    assert Pow2(4) == 16;
    Pow2Add(8, 7);
    assert Pow2(7) == 128;
    Pow2Add(8, 8);
    Pow2Add(16, 7);
    Pow2Add(16, 8);
    Pow2Add(16, 15);
    Pow2Add(16, 16);
  }

  lemma Pow2Of31()
    ensures Pow2(31) == 0x8000_0000 && Pow2(32) == 0x1_0000_0000
  {
    Pow2Values();
  }

  lemma MulComm(a: int, b: int)
    ensures a * b == b * a
  {
  }

  /** A factor between `-b` and `b` keeps a product with `n >= 0` between
      `-(n * b)` and `n * b`. */
  lemma MulBound(a: int, b: int, n: int)
    requires n >= 0 && -b <= a <= b
    ensures -(n * b) <= a * n <= n * b
  {
    assert (b - a) * n >= 0;
    assert (a + b) * n >= 0;
  }

  lemma MulMono(a: int, b: int, d: int)
    requires a <= b && d >= 0
    ensures a * d <= b * d
  {
    assert (b - a) * d >= 0;
  }

  lemma MulAtLeast(a: int, d: int)
    requires a >= 1 && d > 0
    ensures a * d >= d
  {
    assert a * d - d == (a - 1) * d;
  }

  /** Quotient and remainder are the only pair that rebuilds `x`. */
  lemma DivModUnique(x: int, d: int, q: int, r: int)
    requires d > 0 && x == q * d + r && 0 <= r < d
    ensures x / d == q && x % d == r
  {
    var q', r' := x / d, x % d;
    assert (q - q') * d == r' - r;
    if q > q' {
      MulAtLeast(q - q', d);
    } else if q < q' {
      MulAtLeast(q' - q, d);
    }
  }

  lemma MulMod(k: int, d: int)
    requires d > 0
    ensures (k * d) % d == 0 && (k * d) / d == k
  {
    DivModUnique(k * d, d, k, 0);
  }

  lemma ModAddMultiple(x: int, k: int, d: int)
    requires d > 0
    ensures (x + k * d) % d == x % d
    ensures (x + k * d) / d == x / d + k
  {
    assert x + k * d == (x / d + k) * d + x % d;
    DivModUnique(x + k * d, d, x / d + k, x % d);
  }

  /** Splitting a flat index into a frame number and a position inside the frame. */
  lemma FrameIndex(f: int, c: int, n: int)
    requires n > 0 && 0 <= c < n
    ensures (f * n + c) / n == f && (f * n + c) % n == c
  {
    DivModUnique(f * n + c, n, f, c);
  }

  lemma FrameBound(f: int, c: int, n: int, count: int)
    requires n > 0 && 0 <= c < n && 0 <= f < count
    ensures 0 <= f * n + c < count * n
  {
    MulAtLeast(count - f, n);
    assert count * n - f * n == (count - f) * n;
  }

  /** A positive multiple of `w` is at least `w`, and removing `w` keeps it a multiple. */
  lemma MultipleStep(x: int, w: int)
    requires w > 0 && x > 0 && x % w == 0
    ensures x >= w && (x - w) % w == 0
  {
    var q := x / w;
    assert x == q * w;
    MulAtLeast(q, w);
    assert x - w == (q - 1) * w;
    MulMod(q - 1, w);
  }

  /** Subtracting the remainder leaves a multiple of the divisor. */
  lemma RoundDownMultiple(x: int, d: int)
    requires d > 0
    ensures (x - x % d) % d == 0
    ensures x - x % d > x - d
  {
    ModAddMultiple(0, x / d, d);
    assert x - x % d == x / d * d;
  }

  lemma MultipleAdd(x: int, y: int, w: int)
    requires w > 0 && x % w == 0 && y % w == 0
    ensures (x + y) % w == 0
  {
    assert x == (x / w) * w;
    ModAddMultiple(y, x / w, w);
  }

  lemma MultipleOfProduct(k: int, a: int, b: int)
    requires a > 0 && b > 0
    ensures (k * (a * b)) % a == 0
    ensures (k * (a * b)) % (a * b) == 0
  {
    assert k * (a * b) == (k * b) * a;
    MulMod(k * b, a);
    MulMod(k, a * b);
  }

  /** `k` items for each of a whole number of frames of `n` make whole
      frames of `n * k`. */
  lemma MultipleScale(x: int, n: int, k: int)
    requires n > 0 && k > 0 && x % n == 0
    ensures (x * k) % (n * k) == 0
  {
    var q := x / n;
    assert x == q * n;
    assert x * k == q * (n * k);
    MulMod(q, n * k);
  }

  /** Floor division by `a` and then by `b` is floor division by `a * b`. */
  lemma DivDiv(x: int, a: int, b: int)
    requires a > 0 && b > 0
    ensures (x / a) / b == x / (a * b)
    ensures x % (a * b) == ((x / a) % b) * a + x % a
  {
    var q1, r1 := x / a, x % a;
    var q2, r2 := q1 / b, q1 % b;
    assert x == q2 * (a * b) + (r2 * a + r1) by {
      assert x == q1 * a + r1;
      assert q1 == q2 * b + r2;
      assert q1 * a == q2 * (a * b) + r2 * a;
    }
    assert r2 * a + r1 < a * b by {
      MulAtLeast(b - r2, a);
      assert (b - r2) * a == b * a - r2 * a;
    }
    assert r2 * a >= 0;
    DivModUnique(x, a * b, q2, r2 * a + r1);
  }

  /** `x` items in frames of `w`, `m` frames to a block: the items before
      the first whole frame, the whole blocks and the frames left over add up
      to `x`. */
  lemma BlockSplit(x: nat, w: nat, m: nat)
    requires w > 0 && m > 0
    ensures x == x % w + (x / w) / m * (m * w) + (x / w) % m * w
    ensures (x / w) % m * w <= x
  {
    var fr, s := x / w, x % w;
    var q, r := fr / m, fr % m;
    assert x == fr * w + s;
    assert fr == q * m + r;
    MulSplit(q * m, r, w);
    MulAssoc(q, m, w);
    ModAtMost(fr, m);
    MulMono(r, fr, w);
  }

  lemma ModAtMost(a: nat, m: nat)
    requires m > 0
    ensures a % m <= a
  {
    if a >= m {
      assert a % m < m;
    } else {
      DivModUnique(a, m, 0, a);
    }
  }

  lemma MulSplit(a: int, b: int, w: int)
    ensures (a + b) * w == a * w + b * w
  {
  }

  lemma MulAssoc(a: int, b: int, w: int)
    ensures (a * b) * w == a * (b * w)
  {
  }

  lemma MultipleOfMultiple(j: int, m: int, w: int)
    requires w > 0
    ensures (j * (m * w)) % w == 0
  {
    assert j * (m * w) == (j * m) * w;
    MulMod(j * m, w);
  }

  /** A remainder by a power of two is also determined by the halved value. */
  lemma ModPow2Halve(u: nat, c: nat)
    requires c >= 1
    ensures u % Pow2(c) == 2 * ((u / 2) % Pow2(c - 1)) + u % 2
    ensures u / Pow2(c) == (u / 2) / Pow2(c - 1)
  {
    DivDiv(u, 2, Pow2(c - 1));
  }

  /** Remainders modulo a power of two ignore multiples of any larger power. */
  lemma ModPow2OfMultiple(x: int, k: int, c: nat, m: nat)
    requires c <= m
    ensures (x + k * Pow2(m)) % Pow2(c) == x % Pow2(c)
  {
    Pow2Split(c, m);
    ModOfProductMultiple(x, k, Pow2(c), Pow2(m - c));
  }

  lemma ModOfProductMultiple(x: int, k: int, p: int, q: int)
    requires p > 0 && q > 0
    ensures (x + k * (p * q)) % p == x % p
  {
    assert k * (p * q) == (k * q) * p;
    ModAddMultiple(x, k * q, p);
  }

  /** The multiples of `d` are spaced `d` apart: one above `-d` is not negative. */
  lemma MultipleAboveNegative(x: int, d: int)
    requires d > 0 && x % d == 0 && x > -d
    ensures x >= 0
  {
    var q := x / d;
    assert x == q * d;
  }

  /** A set of integers drawn from `lo..hi` has at most `hi - lo + 1` members. */
  lemma {:induction false} BoundedSetSize(s: set<int>, lo: int, hi: int)
    requires forall x :: x in s ==> lo <= x <= hi
    ensures |s| <= if hi < lo then 0 else hi - lo + 1
    decreases hi - lo
  {
    if hi < lo {
      assert forall x :: x !in s;
      assert s == {};
    } else {
      BoundedSetSize(s - {hi}, lo, hi - 1);
    }
  }

  /** Rounding down to a multiple of `d` never passes a smaller multiple of `d`. */
  lemma RoundDownAtLeast(s: int, m: int, d: int)
    requires d > 0 && m % d == 0 && m <= s
    ensures m <= s - s % d
  {
    var k, q := m / d, s / d;
    assert m == k * d;
    assert s == q * d + s % d;
    if k > q {
      MulAtLeast(k - q, d);
    }
  }

  /** -2^k is a multiple of every 2^c with c <= k. */
  lemma {:induction false} NegPow2Multiple(c: nat, k: nat)
    requires c <= k
    ensures (-(Pow2(k) as int)) % Pow2(c) == 0
  {
    if k == c {
      MulMod(-1, Pow2(c));
    } else {
      NegPow2Multiple(c, k - 1);
      MultipleAdd(-(Pow2(k - 1) as int), -(Pow2(k - 1) as int), Pow2(c));
    }
  }
}
