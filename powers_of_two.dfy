/** Powers of two, integer logarithms and the bit test the simulator uses to
    validate its configuration values (block size, capacity, associativity,
    core count). The source applies the test to a 32-bit signed `int`. */
module PowersOfTwo {

  const INT_MIN: int := -0x8000_0000
  const INT_MAX: int := 0x7FFF_FFFF
  const TWO_TO_32: int := 0x1_0000_0000

  function Pow2(k: nat): (r: nat)
    ensures r >= 1
  {
    if k == 0 then 1 else 2 * Pow2(k - 1)
  }

  /** Floor of the base-2 logarithm. On a power of two this is the exact
      logarithm that the source obtains from a floating-point `log2`. */
  function Log2(x: nat): (r: nat)
    requires x >= 1
    ensures Pow2(r) <= x < 2 * Pow2(r)
  {
    if x == 1 then 0 else 1 + Log2(x / 2)
  }

  /** Bitwise AND of two non-negative integers, one bit at a time from the
      least significant end. */
  function BitAnd(a: nat, b: nat): (r: nat)
    decreases a
  {
    if a == 0 || b == 0 then 0
    else 2 * BitAnd(a / 2, b / 2) + (if a % 2 == 1 && b % 2 == 1 then 1 else 0)
  }

  /** The 32-bit two's-complement pattern of a signed 32-bit value. */
  function Bits32(x: int): (r: nat)
    requires INT_MIN <= x <= INT_MAX
  {
    if x >= 0 then x else x + TWO_TO_32
  }

  /** `(x != 0) && ((x & (x - 1)) == 0)` on a 32-bit `int`. The source's
      `x - 1` is undefined for the least `int`, which is therefore excluded. */
  predicate IsPowerOfTwo(x: int)
    requires INT_MIN < x <= INT_MAX
  {
    x != 0 && BitAnd(Bits32(x), Bits32(x - 1)) == 0
  }

  lemma {:induction false} BitAndSelf(m: nat)
    ensures BitAnd(m, m) == m
  {
    if m > 0 {
      BitAndSelf(m / 2);
    }
  }

  /** For a positive integer, the bit trick holds exactly on powers of two. */
  lemma {:induction false} BitTrick(x: nat)
    requires x >= 1
    ensures BitAnd(x, x - 1) == 0 <==> Pow2(Log2(x)) == x
  {
    if x == 1 {
    } else if x % 2 == 1 {
      var m := x / 2;
      BitAndSelf(m);
      assert BitAnd(x, x - 1) == 2 * BitAnd(m, m);
      assert Pow2(Log2(x)) == 2 * Pow2(Log2(m));
    } else if x == 2 {
      assert BitAnd(2, 1) == 2 * BitAnd(1, 0);
    } else {
      var m := x / 2;
      assert (x - 1) / 2 == m - 1;
      assert BitAnd(x, x - 1) == 2 * BitAnd(m, m - 1);
      assert Pow2(Log2(x)) == 2 * Pow2(Log2(m));
      BitTrick(m);
    }
  }

  /** Two numbers whose highest set bit is bit n share that bit. */
  lemma {:induction false} BitAndKeepsHighBit(a: nat, b: nat, n: nat)
    requires Pow2(n) <= a < 2 * Pow2(n)
    requires Pow2(n) <= b < 2 * Pow2(n)
    ensures BitAnd(a, b) >= Pow2(n)
  {
    if n > 0 {
      BitAndKeepsHighBit(a / 2, b / 2, n - 1);
    }
  }

  /** A positive power of two: the integers the bit test below accepts. */
  predicate PositivePowerOfTwo(x: int) {
    x >= 1 && Pow2(Log2(x)) == x
  }

  lemma Pow2Of31()
    ensures Pow2(31) == 0x8000_0000
  {
    assert Pow2(8) == 256;
    assert Pow2(7) == 128;
    Pow2Add(8, 8, 16);
    Pow2Add(16, 8, 24);
    Pow2Add(24, 7, 31);
  }

  /** The source's test accepts exactly the positive powers of two: zero and
      every negative value are rejected. */
  lemma IsPowerOfTwoCorrect(x: int)
    requires INT_MIN < x <= INT_MAX
    ensures IsPowerOfTwo(x) <==> PositivePowerOfTwo(x)
  {
    if x >= 1 {
      BitTrick(x);
    } else if x < 0 {
      Pow2Of31();
      BitAndKeepsHighBit(Bits32(x), Bits32(x - 1), 31);
    }
  }

  /** Every value the test accepts is 2^k for some k <= 30. */
  lemma AcceptedExponent(x: int)
    requires INT_MIN < x <= INT_MAX && IsPowerOfTwo(x)
    ensures x >= 1 && Pow2(Log2(x)) == x && Log2(x) <= 30
  {
    IsPowerOfTwoCorrect(x);
    var k := Log2(x);
    if k >= 31 {
      Pow2Of31();
      Pow2Monotone(31, k);
    }
  }

  /** Every power of two that fits in an `int` passes the test. */
  lemma PowerOfTwoAccepted(k: nat)
    requires Pow2(k) <= INT_MAX
    ensures IsPowerOfTwo(Pow2(k))
    ensures Log2(Pow2(k)) == k
  {
    Log2OfPow2(k);
    IsPowerOfTwoCorrect(Pow2(k));
  }

  lemma {:induction false} Log2OfPow2(k: nat)
    ensures Log2(Pow2(k)) == k
  {
    if k > 0 {
      assert Pow2(k) / 2 == Pow2(k - 1);
      Log2OfPow2(k - 1);
    }
  }

  /** The exponent of the product is given as c, so that callers can name
      it in the form their own terms use. */
  lemma {:induction false} Pow2Add(a: nat, b: nat, c: nat)
    requires a + b == c
    ensures Pow2(c) == Pow2(a) * Pow2(b)
  {
    if a > 0 {
      Pow2Add(a - 1, b, c - 1);
    }
  }

  lemma {:induction false} Pow2Monotone(a: nat, b: nat)
    requires a <= b
    ensures Pow2(a) <= Pow2(b)
  {
    if a < b {
      Pow2Monotone(a, b - 1);
    }
  }

  /** Multiplying both sides of an inequality by a natural number. */
  lemma {:induction false} MulMonotone(a: int, b: int, c: nat)
    requires a <= b
    ensures a * c <= b * c
  {
    if c > 0 {
      MulMonotone(a, b, c - 1);
      assert a * c == a * (c - 1) + a && b * c == b * (c - 1) + b;
    }
  }

  /** A nonzero multiple of a positive q is at least q away from zero. */
  lemma MulAwayFromZero(x: int, q: int)
    requires q >= 1
    ensures x >= 1 ==> x * q >= q && x * q >= x
    ensures x <= -1 ==> x * q <= -q
  {
    if x >= 1 {
      MulMonotone(1, x, q);
      MulMonotone(1, q, x);
    } else if x <= -1 {
      MulMonotone(x, -1, q);
    }
  }

  /** Euclidean division is determined by its quotient-remainder equation. */
  lemma DivUnique(a: int, q: int, d: int, r: int)
    requires q >= 1 && a == d * q + r && 0 <= r < q
    ensures a / q == d && a % q == r
  {
    var e := a / q - d;
    assert e * q == r - a % q;
    MulAwayFromZero(e, q);
  }

  /** Exact division: a multiple of q divided by q. */
  lemma DivExact(a: int, q: int, p: int)
    requires q >= 1 && a == p * q
    ensures a / q == p && a % q == 0
  {
    DivUnique(a, q, p, 0);
  }

  lemma DivBounds(a: nat, q: nat)
    requires q >= 1
    ensures (a / q) * q <= a < (a / q + 1) * q
    ensures 0 <= a / q <= a
  {
    assert a == (a / q) * q + a % q;
    assert (a / q + 1) * q == (a / q) * q + q;
    MulAwayFromZero(a / q, q);
  }

  lemma DivLess(a: nat, q: nat, t: nat)
    requires q >= 1 && a < q * t
    ensures a / q < t
  {
    DivBounds(a, q);
    MulAwayFromZero(a / q - t, q);
  }

  lemma Pow2Div(x: nat, y: nat, z: nat)
    requires y + z == x
    ensures Pow2(x) / Pow2(y) == Pow2(z)
  {
    Pow2Add(z, y, x);
    DivExact(Pow2(x), Pow2(y), Pow2(z));
  }

  lemma Pow2Injective(a: nat, b: nat)
    requires Pow2(a) <= Pow2(b)
    ensures a <= b
  {
    if a > b {
      Pow2Monotone(b + 1, a);
    }
  }

  lemma Pow2StrictlyBelow(a: nat, b: nat)
    requires Pow2(a) < Pow2(b)
    ensures a < b
  {
    if a >= b {
      Pow2Monotone(b, a);
    }
  }

  lemma Pow2Of32()
    ensures Pow2(32) == TWO_TO_32
  {
    Pow2Of31();
  }

  /** A 32-bit word splits into k low bits and 32 - k high bits. */
  lemma Pow2Split32(k: nat)
    requires k <= 32
    ensures Pow2(k) * Pow2(32 - k) == TWO_TO_32
    ensures Pow2(32 - k) <= TWO_TO_32
  {
    Pow2Add(k, 32 - k, 32);
    Pow2Of32();
    Pow2Monotone(32 - k, 32);
  }
}
