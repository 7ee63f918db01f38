/** Java's 32-bit `int`: two's-complement wrap-around, division that truncates
    toward zero, and the bitwise operators `&`, `|`, `~` and `<<`, all written
    out over unbounded integers so that every overflow in the model is explicit. */
module JavaInt {
  import opened Arith

  const TwoTo31: int := 0x8000_0000
  const TwoTo32: int := 0x1_0000_0000

  predicate IsInt(x: int)
  {
    -TwoTo31 <= x < TwoTo31
  }

  /** The value a Java `int` holds after an operation whose exact result is `x`;
      also the `(int)` cast of a `long`. */
  function Wrap(x: int): (r: int)
    ensures IsInt(r)
    ensures (x - r) % TwoTo32 == 0
    ensures IsInt(x) ==> r == x
  {
    (x + TwoTo31) % TwoTo32 - TwoTo31
  }

  /** Two exact results that agree modulo 2^32 leave the same `int`. */
  lemma WrapCongruent(x: int, y: int)
    requires (x - y) % TwoTo32 == 0
    ensures Wrap(x) == Wrap(y)
  {
    var k := (x - y) / TwoTo32;
    assert x + TwoTo31 == (y + TwoTo31) + k * TwoTo32;
    ModAddMultiple(y + TwoTo31, k, TwoTo32);
  }

  /** Wrapping an addend first does not change the wrapped sum. */
  lemma WrapAdd(a: int, b: int)
    ensures Wrap(Wrap(a) + b) == Wrap(a + b)
  {
    WrapCongruent(Wrap(a) + b, a + b);
  }

  /** Wrapping the subtrahend first does not change the wrapped difference. */
  lemma WrapSub(a: int, b: int)
    ensures Wrap(a - Wrap(b)) == Wrap(a - b)
  {
    var k := (b - Wrap(b)) / TwoTo32;
    assert (a - Wrap(b)) - (a - b) == k * TwoTo32;
    MulMod(k, TwoTo32);
    WrapCongruent(a - Wrap(b), a - b);
  }

  /** Adding a wrapped value and wrapping again differs from the exact sum
      by a multiple of 2^32. */
  lemma WrapSumCongruent(a: int, b: int)
    ensures (Wrap(a + Wrap(b)) - a - b) % TwoTo32 == 0
  {
    var k := (b - Wrap(b)) / TwoTo32;
    MulMod(-k, TwoTo32);
    WrapCongruent(a + Wrap(b), a + b);
    var j := (a + b - Wrap(a + b)) / TwoTo32;
    MulMod(-j, TwoTo32);
  }

  /** Wrapping a factor first does not change the wrapped product. */
  lemma WrapMul(a: int, b: int)
    ensures Wrap(Wrap(a) * b) == Wrap(a * b)
  {
    var k := (a - Wrap(a)) / TwoTo32;
    assert a - Wrap(a) == k * TwoTo32;
    assert a * b - Wrap(a) * b == (k * b) * TwoTo32;
    MulMod(k * b, TwoTo32);
    WrapCongruent(Wrap(a) * b, a * b);
  }

  /** Java `/` by a positive divisor: the quotient truncates toward zero. */
  function Div(a: int, b: int): int
    requires b > 0
  {
    if a >= 0 then a / b else -((-a) / b)
  }

  /** The quotient is the multiple of `b` nearest to `a` on the side of zero. */
  lemma DivTruncates(a: int, b: int)
    requires b > 0
    ensures a >= 0 ==> Div(a, b) * b <= a < Div(a, b) * b + b
    ensures a < 0 ==> Div(a, b) * b - b < a <= Div(a, b) * b
  {
  }

  /** Truncating division commutes with negation. */
  lemma DivNegate(a: int, b: int)
    requires b > 0
    ensures Div(-a, b) == -Div(a, b)
  {
  }

  /** The 32-bit pattern of an `int`, read as an unsigned number. */
  function Unsigned(x: int): (u: nat)
    ensures u < TwoTo32
    ensures (x - u) % TwoTo32 == 0
  {
    x % TwoTo32
  }

  /** A non-negative value below 2^32 is its own 32-bit pattern. */
  lemma UnsignedOfSmall(x: int)
    requires 0 <= x < TwoTo32
    ensures Unsigned(x) == x
  {
    DivModUnique(x, TwoTo32, 0, x);
  }

  /** Wrapping does not change the 32-bit pattern. */
  lemma UnsignedWrap(x: int)
    ensures Unsigned(Wrap(x)) == Unsigned(x)
  {
    var k := (x - Wrap(x)) / TwoTo32;
    assert x == Wrap(x) + k * TwoTo32;
    ModAddMultiple(Wrap(x), k, TwoTo32);
  }

  /** Reading the 32-bit pattern back into an `int` gives the `int` again. */
  lemma WrapUnsigned(x: int)
    ensures Wrap(Unsigned(x)) == Wrap(x)
  {
    WrapCongruent(x, Unsigned(x));
  }

  /** A 32-bit pattern survives a round trip through `int`. */
  lemma UnsignedOfWrap(u: int)
    requires 0 <= u < TwoTo32
    ensures Unsigned(Wrap(u)) == u
  {
  }

  /** Bitwise AND of two non-negative numbers, bit by bit from the bottom. */
  function BitAnd(a: nat, b: nat): nat
    decreases a
  {
    if a == 0 || b == 0 then 0
    else 2 * BitAnd(a / 2, b / 2) + (if a % 2 == 1 && b % 2 == 1 then 1 else 0)
  }

  /** Bitwise OR of two non-negative numbers, bit by bit from the bottom. */
  function BitOr(a: nat, b: nat): nat
    decreases a
  {
    if a == 0 then b
    else if b == 0 then a
    else 2 * BitOr(a / 2, b / 2) + (if a % 2 == 1 || b % 2 == 1 then 1 else 0)
  }

  /** Java `x & y` on `int`. */
  function And(x: int, y: int): int
  {
    Wrap(BitAnd(Unsigned(x), Unsigned(y)))
  }

  /** Java `x | y` on `int`. */
  function Or(x: int, y: int): int
  {
    Wrap(BitOr(Unsigned(x), Unsigned(y)))
  }

  /** Java `~x` on `int`. */
  function Not(x: int): int
  {
    Wrap(TwoTo32 - 1 - Unsigned(x))
  }

  /** Java `x << s` on `int`: the shift distance is taken modulo 32. */
  function ShiftLeft(x: int, s: int): int
  {
    Wrap(x * Pow2(s % 32))
  }

  /** The mask whose bits c..k-1 are set and all others clear. */
  function HighBits(k: nat, c: nat): (m: nat)
    requires c <= k
    ensures m == Pow2(k) - Pow2(c)
  {
    Pow2Monotone(c, k);
    Pow2(k) - Pow2(c)
  }

  /** ANDing with `HighBits(k, c)` keeps exactly bits c..k-1. */
  lemma {:induction false} AndHighBits(u: nat, k: nat, c: nat)
    requires c <= k && u < Pow2(k)
    ensures BitAnd(u, HighBits(k, c)) == u - u % Pow2(c)
  {
    var m := HighBits(k, c);
    if u == 0 {
    } else if m == 0 {
      DivModUnique(u, Pow2(c), 0, u);
    } else {
      var p1 := Pow2(k - 1);
      var h := u / 2;
      assert h < p1;
      if c == 0 {
        assert m == 2 * (p1 - 1) + 1;
        assert m / 2 == HighBits(k - 1, 0) && m % 2 == 1;
        AndHighBits(h, k - 1, 0);
        assert BitAnd(u, m) == 2 * BitAnd(h, m / 2) + u % 2;
      } else {
        var pc := Pow2(c - 1);
        assert m == 2 * (p1 - pc);
        assert m / 2 == HighBits(k - 1, c - 1) && m % 2 == 0;
        AndHighBits(h, k - 1, c - 1);
        assert BitAnd(u, m) == 2 * BitAnd(h, m / 2);
        ModPow2Halve(u, c);
      }
    }
  }

  /** ORing the next bit onto a run of low ones extends the run. */
  lemma {:induction false} OrNextBit(b: nat)
    ensures BitOr(Pow2(b) - 1, Pow2(b)) == Pow2(b + 1) - 1
  {
    if b > 0 {
      assert (Pow2(b) - 1) / 2 == Pow2(b - 1) - 1;
      assert Pow2(b) / 2 == Pow2(b - 1);
      OrNextBit(b - 1);
    }
  }

  /** `~(2^c - 1)` has every bit from c upward set. */
  lemma {:induction false} NotLowOnes(c: nat)
    requires c <= 31
    ensures Unsigned(Not(Pow2(c) - 1)) == HighBits(32, c)
  {
    var p := Pow2(c);
    Pow2Of31();
    Pow2Monotone(c, 31);
    assert 1 <= p <= TwoTo31;
    assert Unsigned(p - 1) == p - 1;
    assert Not(p - 1) == Wrap(TwoTo32 - p);
    UnsignedOfWrap(TwoTo32 - p);
    assert Unsigned(Not(p - 1)) == TwoTo32 - p;
    assert HighBits(32, c) == TwoTo32 - p;
  }

  /** Rounding an `int` down to a multiple of 2^c (c <= 31) stays an `int`,
      because -2^31 is itself such a multiple. */
  lemma {:induction false} RoundDownStaysInt(x: int, c: nat)
    requires IsInt(x) && c <= 31
    ensures IsInt(x - x % Pow2(c))
  {
    var p := Pow2(c);
    var q := Pow2(31 - c);
    var r := x - x % p;
    Pow2Of31();
    Pow2Split(c, 31);
    assert TwoTo31 == p * q;
    MulComm(p, q);
    RoundDownMultiple(x, p);
    ModAddMultiple(r, q, p);
    MultipleAboveNegative(r + TwoTo31, p);
  }

  /** Rounding down the 32-bit pattern of `x` and wrapping gives `x`
      rounded down. */
  lemma WrapRoundDown(x: int, u: int, p: nat, k: int)
    requires p > 0 && u == x + k * TwoTo32 && u % p == x % p && IsInt(x - x % p)
    ensures Wrap(u - u % p) == x - x % p
  {
    MulMod(k, TwoTo32);
    WrapCongruent(u - u % p, x - x % p);
  }

  /** The same on the 32-bit pattern of `x`. */
  lemma AndNotLowOnesPattern(x: int, c: nat)
    requires c <= 31
    ensures And(x, Not(Pow2(c) - 1)) == Wrap(Unsigned(x) - Unsigned(x) % Pow2(c))
  {
    NotLowOnes(c);
    AndHighMask(x, Not(Pow2(c) - 1), c);
  }

  /** ANDing with any value whose pattern is bits c..31 clears the low c bits. */
  lemma AndHighMask(x: int, y: int, c: nat)
    requires c <= 31 && Unsigned(y) == HighBits(32, c)
    ensures And(x, y) == Wrap(Unsigned(x) - Unsigned(x) % Pow2(c))
  {
    AndHighBits32(Unsigned(x), Unsigned(y), c);
    AndOfPatterns(x, y, Unsigned(x) - Unsigned(x) % Pow2(c));
  }

  lemma AndHighBits32(u: nat, m: nat, c: nat)
    requires c <= 31 && u < TwoTo32 && m == HighBits(32, c)
    ensures BitAnd(u, m) == u - u % Pow2(c)
  {
    Pow2Of31();
    AndHighBits(u, 32, c);
  }

  lemma AndOfPatterns(x: int, y: int, v: int)
    requires BitAnd(Unsigned(x), Unsigned(y)) == v
    ensures And(x, y) == Wrap(v)
  {
  }

  lemma ModPow2OfMultiple32(x: int, k: int, c: nat)
    requires c <= 32
    ensures (x + k * TwoTo32) % Pow2(c) == x % Pow2(c)
  {
    Pow2Of31();
    ModPow2OfMultiple(x, k, c, 32);
  }

  /** Rounding the 32-bit pattern of an `int` down to a multiple of 2^c and
      wrapping is rounding the `int` down. */
  lemma UnsignedRoundDown(x: int, c: nat)
    requires IsInt(x) && c <= 31
    ensures Wrap(Unsigned(x) - Unsigned(x) % Pow2(c)) == x - x % Pow2(c)
  {
    var p := Pow2(c);
    var u := Unsigned(x);
    var k := -(x / TwoTo32);
    assert u == x + k * TwoTo32;
    ModPow2OfMultiple32(x, k, c);
    RoundDownStaysInt(x, c);
    WrapRoundDown(x, u, p, k);
  }

  /** `x & ~(2^c - 1)` on `int` rounds `x` down to a multiple of 2^c. */
  lemma AndNotLowOnes(x: int, c: nat)
    requires IsInt(x) && c <= 31
    ensures And(x, Not(Pow2(c) - 1)) == x - x % Pow2(c)
  {
    AndNotLowOnesPattern(x, c);
    UnsignedRoundDown(x, c);
  }
}
