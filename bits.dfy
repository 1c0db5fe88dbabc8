/** Unsigned bit arithmetic used by the alignment code of both front ends.
    C's `x & y` and `x & ~m` are modelled bit by bit on unbounded naturals,
    so that the mask trick `(x + a - 1) & ~(a - 1)` can be stated exactly
    and then proved to round up to a multiple when `a` is a power of two. */
module Bits {

  /** `n` is a positive power of two. */
  predicate IsPow2(n: nat)
    decreases n
  {
    if n == 0 then false
    else if n == 1 then true
    else n % 2 == 0 && IsPow2(n / 2)
  }

  /** C's `x & y` on unsigned integers. */
  function BitAnd(x: nat, y: nat): nat
    decreases x
  {
    if x == 0 || y == 0 then 0
    else (x % 2) * (y % 2) + 2 * BitAnd(x / 2, y / 2)
  }

  /** C's `x & ~m` on unsigned integers: `x` with the bits of `m` cleared. */
  function AndNot(x: nat, m: nat): nat
    decreases x
  {
    if x == 0 then 0
    else (if m % 2 == 1 then 0 else x % 2) + 2 * AndNot(x / 2, m / 2)
  }

  /** C's `(x + a - 1) & ~(a - 1)` on unsigned integers. For `a == 0` the mask
      `~(0 - 1)` is all zeroes, so the result is 0 whatever `x` is. */
  function MaskRoundUp(x: nat, a: nat): nat
  {
    if a == 0 then 0 else AndNot(x + a - 1, a - 1)
  }

  /** The C test `n > 0 && !(n & (n - 1))` used by the alignment asserts. */
  predicate PassesPow2Test(n: nat)
  {
    n > 0 && BitAnd(n, n - 1) == 0
  }

  /** `r` is the least multiple of `a` that is at least `x`. */
  predicate IsRoundUp(x: nat, a: nat, r: nat)
    requires a > 0
  {
    r % a == 0 && x <= r < x + a
  }

  /** The least multiple of `a` that is at least `x`, by division: the
      reference the mask trick is measured against. */
  function RoundUp(x: nat, a: nat): (r: nat)
    requires a > 0
    ensures IsRoundUp(x, a, r)
  {
    RoundUpIsRoundUp(x, a);
    (x + a - 1) / a * a
  }

  lemma {:induction false} ModUnique(x: nat, d: nat, s: nat, m: nat)
    requires d > 0 && x == d * s + m && m < d
    ensures x % d == m && x / d == s
  {
    var q, r := x / d, x % d;
    assert x == d * q + r;
    MulGap(d, q, s);
    MulGap(d, s, q);
  }

  lemma MulMono(d: nat, a: nat, b: nat)
    requires a <= b
    ensures d * a <= d * b
  {
  }

  /** Distinct multiples of `d` are at least `d` apart. */
  lemma MulGap(d: nat, p: nat, q: nat)
    ensures p < q ==> d * p + d <= d * q
  {
    if p < q {
      MulMono(d, p + 1, q);
    }
  }

  /** Splitting the remainder by `a == 2 * b` into the low bit and the rest. */
  lemma {:induction false} ModDouble(x: nat, a: nat, b: nat)
    requires b >= 1 && a == 2 * b
    ensures x % a == x % 2 + 2 * ((x / 2) % b)
  {
    var q, r := x / 2, x % 2;
    var s, t := q / b, q % b;
    assert q == b * s + t;
    assert x == a * s + (2 * t + r);
    ModUnique(x, a, s, 2 * t + r);
  }

  /** Halving a power of two above 1. */
  lemma HalvePow2(a: nat)
    requires a > 1 && IsPow2(a)
    ensures a == 2 * (a / 2) && IsPow2(a / 2) && a / 2 >= 1
  {
  }

  /** One step of `AndNot` against an odd mask `a - 1` with `a == 2 * b`. */
  lemma AndNotOddStep(x: nat, a: nat, b: nat)
    requires x > 0 && a == 2 * b && b >= 1
    ensures AndNot(x, a - 1) == 2 * AndNot(x / 2, b - 1)
  {
    assert (a - 1) % 2 == 1 && (a - 1) / 2 == b - 1;
  }

  lemma {:induction false} AndNotZero(x: nat)
    ensures AndNot(x, 0) == x
    decreases x
  {
    if x > 0 {
      AndNotZero(x / 2);
    }
  }

  /** Clearing the low bits below a power of two rounds down to a multiple of it. */
  lemma {:induction false} AndNotLowMask(x: nat, a: nat)
    requires IsPow2(a)
    ensures AndNot(x, a - 1) == x - x % a
    decreases a
  {
    if a == 1 {
      AndNotZero(x);
      assert x % a == 0;
    } else if x == 0 {
      assert x % a == 0;
    } else {
      HalvePow2(a);
      var b, h := a / 2, x / 2;
      AndNotOddStep(x, a, b);
      AndNotLowMask(h, b);
      ModDouble(x, a, b);
      assert x == 2 * h + x % 2;
    }
  }

  /** Multiples of `a` are exactly the values with remainder 0. */
  lemma MultipleMod(a: nat, q: nat)
    requires a > 0
    ensures (a * q) % a == 0
  {
    ModUnique(a * q, a, q, 0);
  }

  /** Euclidean division of `y` by a positive `a`. */
  lemma DivMod(y: nat, a: nat)
    requires a > 0
    ensures y == a * (y / a) + y % a && y % a < a
  {
  }

  /** The mask trick rounds up to the least multiple of a power of two. */
  lemma {:induction false} MaskRoundUpIsRoundUp(x: nat, a: nat)
    requires IsPow2(a)
    ensures IsRoundUp(x, a, MaskRoundUp(x, a))
  {
    var y := x + a - 1;
    AndNotLowMask(y, a);
    var q, m := y / a, y % a;
    DivMod(y, a);
    var r := MaskRoundUp(x, a);
    assert r == y - m;
    assert r == a * q;
    MultipleMod(a, q);
  }

  /** Rounding a multiple up leaves it unchanged. */
  lemma {:induction false} MaskRoundUpOfMultiple(x: nat, a: nat)
    requires IsPow2(a) && x % a == 0
    ensures MaskRoundUp(x, a) == x
  {
    var y := x + a - 1;
    AndNotLowMask(y, a);
    var s := x / a;
    DivMod(x, a);
    assert x == a * s;
    assert y == a * s + (a - 1);
    ModUnique(y, a, s, a - 1);
    assert MaskRoundUp(x, a) == y - (a - 1);
  }

  lemma {:induction false} RoundUpIsRoundUp(x: nat, a: nat)
    requires a > 0
    ensures IsRoundUp(x, a, (x + a - 1) / a * a)
  {
    var y := x + a - 1;
    var q, m := y / a, y % a;
    DivMod(y, a);
    assert q * a == a * q;
    MultipleMod(a, q);
  }

  /** There is only one least multiple. */
  lemma {:induction false} RoundUpUnique(x: nat, a: nat, r1: nat, r2: nat)
    requires a > 0 && IsRoundUp(x, a, r1) && IsRoundUp(x, a, r2)
    ensures r1 == r2
  {
    DivMod(r1, a);
    DivMod(r2, a);
    var q1, q2 := r1 / a, r2 / a;
    MulGap(a, q1, q2);
    MulGap(a, q2, q1);
  }

  /** For a power of two the mask trick and the division agree on every input. */
  lemma MaskRoundUpEqRoundUp(x: nat, a: nat)
    requires IsPow2(a)
    ensures MaskRoundUp(x, a) == RoundUp(x, a)
  {
    MaskRoundUpIsRoundUp(x, a);
    RoundUpUnique(x, a, MaskRoundUp(x, a), RoundUp(x, a));
  }

  lemma {:induction false} BitAndSelf(k: nat)
    ensures BitAnd(k, k) == k
    decreases k
  {
    if k > 0 {
      BitAndSelf(k / 2);
    }
  }

  /** The C power-of-two test accepts exactly the powers of two. */
  lemma {:induction false} Pow2TestCorrect(n: nat)
    ensures PassesPow2Test(n) <==> IsPow2(n)
    decreases n
  {
    if n > 1 {
      if n % 2 == 0 {
        var m := n / 2;
        assert (n - 1) % 2 == 1 && (n - 1) / 2 == m - 1;
        assert BitAnd(n, n - 1) == 2 * BitAnd(m, m - 1);
        Pow2TestCorrect(m);
      } else {
        var k := n / 2;
        assert (n - 1) / 2 == k && (n - 1) % 2 == 0;
        BitAndSelf(k);
        assert BitAnd(n, n - 1) == 2 * k;
      }
    }
  }

  lemma {:induction false} AndNotSelf(k: nat)
    ensures AndNot(k, k) == 0
    decreases k
  {
    if k > 0 {
      AndNotSelf(k / 2);
    }
  }

  /** `a & ~(a - 1)` keeps the lowest set bit of `a`: it is `a` itself
      exactly when `a` is a power of two. */
  lemma {:induction false} LowBit(a: nat)
    requires a > 0
    ensures 1 <= AndNot(a, a - 1) <= a && (AndNot(a, a - 1) == a <==> IsPow2(a))
    decreases a
  {
    if a % 2 == 1 {
      assert (a - 1) % 2 == 0 && (a - 1) / 2 == a / 2;
      AndNotSelf(a / 2);
    } else {
      var b := a / 2;
      AndNotOddStep(a, a, b);
      assert a / 2 == b;
      LowBit(b);
    }
  }

  /** The mask needs a power of two: for any other boundary `a`, 1 "rounded
      up to `a`" is a positive value below `a`, so not a multiple of `a`. */
  lemma MaskNeedsPow2(a: nat)
    requires a > 0 && !IsPow2(a)
    ensures 0 < MaskRoundUp(1, a) < a && !IsRoundUp(1, a, MaskRoundUp(1, a))
  {
    var m := AndNot(a, a - 1);
    assert MaskRoundUp(1, a) == m;
    LowBit(a);
    SmallMod(m, a);
  }

  lemma SmallMod(m: nat, a: nat)
    requires m < a
    ensures m % a == m
  {
  }

  lemma MaxPow2(a: nat, b: nat)
    requires IsPow2(a) && IsPow2(b)
    ensures IsPow2(if a < b then b else a) && IsPow2(if a < b then a else b)
  {
  }
}
