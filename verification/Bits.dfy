/** Bit operations on naturals, and the arithmetic they come down to on the masks the code uses. */
module Bits {
  function Pow2(n: nat): (r: nat)
    ensures r > 0
  {
    if n == 0 then 1 else 2 * Pow2(n - 1)
  }

  lemma {:induction false} Pow2OfSum(a: nat, b: nat)
    ensures Pow2(a + b) == Pow2(a) * Pow2(b)
  {
    if a > 0 { Pow2OfSum(a - 1, b); }
  }

  lemma PowersUsed()
    ensures Pow2(0) == 1 && Pow2(1) == 2 && Pow2(7) == 128 && Pow2(8) == 256 && Pow2(9) == 512
    ensures Pow2(12) == 0x1000 && Pow2(21) == 0x20_0000 && Pow2(30) == 0x4000_0000
    ensures Pow2(39) == 0x80_0000_0000 && Pow2(52) == 0x10_0000_0000_0000 && Pow2(63) == 0x8000_0000_0000_0000
  {
    assert Pow2(12) == 0x1000;
    Pow2OfSum(12, 9);
    Pow2OfSum(21, 9);
    Pow2OfSum(30, 9);
    Pow2OfSum(39, 13);
    Pow2OfSum(52, 11);
  }

  /** Bitwise `x & y`. */
  function And(x: nat, y: nat): nat {
    if x == 0 || y == 0 then 0
    else (if x % 2 == 1 && y % 2 == 1 then 1 else 0) + 2 * And(x / 2, y / 2)
  }

  /** Bitwise `x | y`. */
  function Or(x: nat, y: nat): nat {
    if x == 0 then y
    else if y == 0 then x
    else (if x % 2 == 1 || y % 2 == 1 then 1 else 0) + 2 * Or(x / 2, y / 2)
  }

  /** Logical `x >> n`. */
  function Shr(x: nat, n: nat): nat {
    if n == 0 then x else Shr(x / 2, n - 1)
  }

  lemma ModIsUnique(x: nat, q: nat, d: nat, r: nat)
    requires r < d && x == q * d + r
    ensures x % d == r
  {
    MultipleBelow(q - x / d, d, x % d - r);
  }

  /** The only multiple of `d` strictly between -d and d is 0. */
  lemma MultipleBelow(k: int, d: int, r: int)
    requires k * d == r && -d < r < d
    ensures r == 0
  {
    if k > 0 {
      ProductNonNegative(k - 1, d);
    } else if k < 0 {
      ProductNonNegative(-k - 1, d);
    }
  }

  lemma ProductNonNegative(a: nat, b: nat)
    ensures a * b >= 0
  {}

  lemma ModOfShift(x: int, y: int, k: int, d: nat)
    requires d > 0 && x == y + k * d
    ensures x % d == y % d
  {
    var n := k + y / d - x / d;
    assert n * d == k * d + (y / d) * d - (x / d) * d;
    MultipleBelow(n, d, x % d - y % d);
  }

  lemma DivIsUnique(x: nat, q: nat, d: nat, r: nat)
    requires r < d && x == q * d + r
    ensures x / d == q
  {
    ModIsUnique(x, q, d, r);
    assert (x / d - q) * d == 0;
  }

  /** A multiple of 2d leaves the bit of weight d alone. */
  lemma BitOfSum(x: nat, q: nat, d: nat, f: nat)
    requires d > 0 && x == q * (2 * d) + f
    ensures x / d % 2 == f / d % 2
  {
    var n, r := f / d, f % d;
    assert f == n * d + r;
    assert q * (2 * d) == (2 * q) * d;
    assert (2 * q) * d + n * d == (2 * q + n) * d;
    DivIsUnique(x, 2 * q + n, d, r);
    ModIsUnique(x / d, q + n / 2, 2, n % 2);
  }

  lemma ModOfDouble(x: nat, p: nat)
    requires p > 0
    ensures x % (2 * p) == 2 * ((x / 2) % p) + x % 2
  {
    var y := x / 2;
    assert y == (y / p) * p + y % p;
    assert (y / p) * (2 * p) == 2 * ((y / p) * p);
    ModIsUnique(x, y / p, 2 * p, 2 * (y % p) + x % 2);
  }

  lemma DivOfDouble(x: nat, p: nat)
    requires p > 0
    ensures x / (2 * p) == x / 2 / p
  {
    ModOfDouble(x, p);
    var q, r := x / (2 * p), x % (2 * p);
    assert x == q * (2 * p) + r;
    var y := x / 2;
    assert y == (y / p) * p + y % p;
    assert (q - y / p) * p == 0;
  }

  lemma {:induction false} ShrIsDiv(x: nat, n: nat)
    ensures Shr(x, n) == x / Pow2(n)
    decreases n
  {
    if n > 0 {
      ShrIsDiv(x / 2, n - 1);
      DivOfDouble(x, Pow2(n - 1));
    }
  }

  /** Masking with the field of bits lo..hi-1 keeps what `% 2^hi` keeps and `% 2^lo` does not. */
  lemma {:induction false} AndField(x: nat, lo: nat, hi: nat, mask: nat)
    requires lo <= hi && mask + Pow2(lo) == Pow2(hi)
    ensures And(x, mask) + x % Pow2(lo) == x % Pow2(hi)
    decreases hi
  {
    if hi == 0 {
    } else if lo == 0 {
      AndField(x / 2, 0, hi - 1, Pow2(hi - 1) - 1);
      ModOfDouble(x, Pow2(hi - 1));
      assert mask / 2 == Pow2(hi - 1) - 1 && mask % 2 == 1;
    } else {
      assert mask / 2 + Pow2(lo - 1) == Pow2(hi - 1) && mask % 2 == 0;
      AndField(x / 2, lo - 1, hi - 1, mask / 2);
      ModOfDouble(x, Pow2(hi - 1));
      ModOfDouble(x, Pow2(lo - 1));
    }
  }

  /** Masking with one bit tests it. */
  lemma {:induction false} AndBit(x: nat, n: nat)
    ensures And(x, Pow2(n)) == 0 <==> x / Pow2(n) % 2 == 0
    decreases n
  {
    if n > 0 {
      assert Pow2(n) % 2 == 0 && Pow2(n) / 2 == Pow2(n - 1);
      AndBit(x / 2, n - 1);
      DivOfDouble(x, Pow2(n - 1));
    }
  }

  /** Or-ing a multiple of 2^k with something below 2^k adds them, in either order. */
  lemma {:induction false} OrIsSum(a: nat, b: nat, k: nat)
    requires a % Pow2(k) == 0 && b < Pow2(k)
    ensures Or(a, b) == a + b && Or(b, a) == a + b
    decreases k
  {
    if k > 0 && a > 0 && b > 0 {
      ModOfDouble(a, Pow2(k - 1));
      OrIsSum(a / 2, b / 2, k - 1);
    }
  }
}
