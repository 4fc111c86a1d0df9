/**
 * The bit operators the byte-order code uses (`|`, `&`, `<<`, `>>`), defined on unsigned
 * integers one bit at a time, with the facts that turn them into arithmetic.
 */
module Bits {
  import opened Integers

  /** `a | b`: a bit is set when it is set in either operand. */
  function Or(a: nat, b: nat): (r: nat)
    ensures a <= r && b <= r
    decreases a + b
  {
    if a == 0 then b
    else if b == 0 then a
    else 2 * Or(a / 2, b / 2) + (if a % 2 == 1 || b % 2 == 1 then 1 else 0)
  }

  /** `a & b`: a bit is set when it is set in both operands. */
  function And(a: nat, b: nat): (r: nat)
    ensures r <= a && r <= b
    decreases a + b
  {
    if a == 0 || b == 0 then 0
    else 2 * And(a / 2, b / 2) + (if a % 2 == 1 && b % 2 == 1 then 1 else 0)
  }

  /** `x << n` on a `width`-bit unsigned integer: bits shifted past the top are dropped. */
  function Shl(x: nat, n: nat, width: nat): (r: nat)
    ensures r < Pow2(width)
  {
    (x * Pow2(n)) % Pow2(width)
  }

  /** `x >> n` on an unsigned integer: the low `n` bits are dropped. */
  function Shr(x: nat, n: nat): (r: nat)
    ensures r * Pow2(n) <= x < (r + 1) * Pow2(n)
  {
    var p := Pow2(n);
    DivBounds(x, p);
    var q: nat := x / p;
    assert q * p <= x < (q + 1) * p;
    q
  }

  /** OR-ing a value below 2^k into a multiple of 2^k sets no bit twice: it is addition. */
  lemma {:induction false} OrDisjoint(a: nat, m: nat, k: nat)
    requires a < Pow2(k)
    ensures Or(a, m * Pow2(k)) == a + m * Pow2(k)
  {
    if k > 0 && a != 0 && m != 0 {
      var p := Pow2(k - 1);
      var b := m * Pow2(k);
      assert b == 2 * (m * p);
      assert b / 2 == m * p && b % 2 == 0;
      OrDisjoint(a / 2, m, k - 1);
    }
  }

  lemma {:induction false} OrCommutes(a: nat, b: nat)
    ensures Or(a, b) == Or(b, a)
    decreases a + b
  {
    if a != 0 && b != 0 {
      OrCommutes(a / 2, b / 2);
    }
  }

  /** OR never leaves the width of its operands. */
  lemma {:induction false} OrBound(a: nat, b: nat, k: nat)
    requires a < Pow2(k) && b < Pow2(k)
    ensures Or(a, b) < Pow2(k)
  {
    if k > 0 && a != 0 && b != 0 {
      OrBound(a / 2, b / 2, k - 1);
    }
  }

  /** AND with the mask of the low k bits keeps exactly those bits: `x & 0xff == x % 256`. */
  lemma {:induction false} AndLowMask(x: nat, k: nat)
    ensures And(x, Pow2(k) - 1) == x % Pow2(k)
  {
    if k == 0 {
      assert Pow2(k) == 1;
      DivModUnique(x, 1, x, 0);
    } else if x == 0 {
      DivModUnique(0, Pow2(k), 0, 0);
    } else {
      var p := Pow2(k - 1);
      assert Pow2(k) == 2 * p;
      AndOddMaskStep(x, p);
      AndLowMask(x / 2, k - 1);
      LowBitsSplit(x, p);
    }
  }

  /** One bit of `x & (2p - 1)`: the low bit of x, then the rest against p - 1. */
  lemma AndOddMaskStep(x: nat, p: nat)
    requires p >= 1 && x != 0
    ensures And(x, 2 * p - 1) == 2 * And(x / 2, p - 1) + x % 2
  {
    DivModUnique(2 * p - 1, 2, p - 1, 1);
  }

  /** x % 2p is its lowest bit plus twice the low bits of x / 2. */
  lemma LowBitsSplit(x: nat, p: nat)
    requires p >= 1
    ensures x % (2 * p) == 2 * ((x / 2) % p) + x % 2
  {
    var h, bit := x / 2, x % 2;
    var q, r := h / p, h % p;
    assert h == q * p + r;
    assert x == 2 * h + bit;
    assert x == q * (2 * p) + (2 * r + bit);
    DivModUnique(x, 2 * p, q, 2 * r + bit);
  }

  /** A shift whose result fits the width loses nothing. */
  lemma ShlExact(x: nat, n: nat, width: nat)
    requires x * Pow2(n) < Pow2(width)
    ensures Shl(x, n, width) == x * Pow2(n)
  {
    DivModUnique(x * Pow2(n), Pow2(width), 0, x * Pow2(n));
  }

  /** A byte shifted to bit position n of a type at least n + 8 bits wide is not truncated. */
  lemma ShlByteExact(x: u8, n: nat, width: nat)
    requires n + 8 <= width
    ensures Shl(x, n, width) == x * Pow2(n)
  {
    var p := Pow2(n);
    Pow2Byte(n);
    Pow2Monotone(n + 8, width);
    assert x * p < 256 * p by {
      assert 256 * p - x * p == (256 - x) * p;
      MulAtLeast(256 - x, p);
    }
    ShlExact(x, n, width);
  }
}
