/**
 * The behaviour of Rust's u64 and i64 primitives that the amount types delegate to:
 * bounds, `overflowing_*` / `checked_*` arithmetic, truncating division and remainder,
 * and the total order.
 */
module Checked {
  import opened Integers
  import opened Wrappers

  /** The two inner integer types an amount type may wrap. */
  datatype IntKind = U64 | I64

  function MinValue(k: IntKind): int
  {
    if k == U64 then 0 else -0x8000_0000_0000_0000
  }

  function MaxValue(k: IntKind): int
  {
    if k == U64 then 0xFFFF_FFFF_FFFF_FFFF else 0x7FFF_FFFF_FFFF_FFFF
  }

  predicate InRange(k: IntKind, x: int)
  {
    MinValue(k) <= x <= MaxValue(k)
  }

  /** Two's-complement wrap-around of an exact result into the 64-bit range of k. */
  function Wrap(k: IntKind, x: int): (r: int)
    ensures InRange(k, r)
    ensures (r - x) % U64_LIMIT == 0
    ensures InRange(k, x) ==> r == x
  {
    if k == U64 then x % U64_LIMIT
    else (x + 0x8000_0000_0000_0000) % U64_LIMIT - 0x8000_0000_0000_0000
  }

  /** `overflowing_*`: the wrapped value and whether the exact result left the range. */
  function Overflowing(k: IntKind, exact: int): (r: (int, bool))
    ensures r.1 <==> !InRange(k, exact)
    ensures !r.1 ==> r.0 == exact
  {
    (Wrap(k, exact), !InRange(k, exact))
  }

  /** `checked_*` built on `overflowing_*`: the value when no overflow happened. */
  function FromOverflowing(r: (int, bool)): Option<int>
  {
    if r.1 then None else Some(r.0)
  }

  function CheckedAdd(k: IntKind, a: int, b: int): (r: Option<int>)
    requires InRange(k, a) && InRange(k, b)
    ensures r.Some? <==> InRange(k, a + b)
    ensures r.Some? ==> r.value == a + b
  {
    FromOverflowing(Overflowing(k, a + b))
  }

  function CheckedSub(k: IntKind, a: int, b: int): (r: Option<int>)
    requires InRange(k, a) && InRange(k, b)
    ensures r.Some? <==> InRange(k, a - b)
    ensures r.Some? ==> r.value == a - b
  {
    FromOverflowing(Overflowing(k, a - b))
  }

  function CheckedMul(k: IntKind, a: int, b: int): (r: Option<int>)
    requires InRange(k, a) && InRange(k, b)
    ensures r.Some? <==> InRange(k, a * b)
    ensures r.Some? ==> r.value == a * b
  {
    FromOverflowing(Overflowing(k, a * b))
  }

  function Abs(x: int): nat
  {
    if x < 0 then -x else x
  }

  /** Integer `/`: the quotient rounded toward zero. */
  function TruncDiv(a: int, b: int): (q: int)
    requires b != 0
    ensures Abs(q) * Abs(b) <= Abs(a) < (Abs(q) + 1) * Abs(b)
    ensures q == 0 || ((q < 0) <==> ((a < 0) != (b < 0)))
  {
    var n, d := Abs(a), Abs(b);
    var m := n / d;
    DivBounds(n, d);
    var q := if (a < 0) == (b < 0) then m else -m;
    assert Abs(q) == m;
    q
  }

  /** Integer `%`: what `/` leaves over; smaller than the divisor and signed like the dividend. */
  function TruncRem(a: int, b: int): (r: int)
    requires b != 0
    ensures Abs(r) < Abs(b)
    ensures r == 0 || ((r < 0) <==> (a < 0))
  {
    RemIsSignedMod(a, b);
    a - b * TruncDiv(a, b)
  }

  /** The truncating remainder is the remainder of the magnitudes, with the dividend's sign. */
  lemma RemIsSignedMod(a: int, b: int)
    requires b != 0
    ensures a - b * TruncDiv(a, b) == (if a < 0 then -(Abs(a) % Abs(b)) else Abs(a) % Abs(b))
  {
    var n, d: int := Abs(a), Abs(b);
    var m: int := n / d;
    assert n == m * d + n % d;
    var q := TruncDiv(a, b);
    if a >= 0 && b > 0 {
      assert b * q == d * m;
    } else if a >= 0 {
      assert b * q == (-d) * (-m) == d * m;
    } else if b > 0 {
      assert b * q == d * (-m) == -(d * m);
    } else {
      assert b * q == (-d) * m == -(d * m);
    }
  }

  /** `checked_div`: None for a zero divisor and for the one quotient that overflows (MIN / -1). */
  function CheckedDiv(k: IntKind, a: int, b: int): (r: Option<int>)
    requires InRange(k, a) && InRange(k, b)
    ensures r.None? <==> b == 0 || !InRange(k, TruncDiv(a, b))
    ensures r.None? <==> b == 0 || (k == I64 && a == MinValue(I64) && b == -1)
    ensures r.Some? ==> r.value == TruncDiv(a, b)
  {
    if b == 0 then None
    else
      QuotientInRange(k, a, b);
      if k == I64 && a == MinValue(I64) && b == -1 then None
      else Some(TruncDiv(a, b))
  }

  /** `checked_rem`: None under the same conditions as `checked_div`, even where the remainder is 0. */
  function CheckedRem(k: IntKind, a: int, b: int): (r: Option<int>)
    requires InRange(k, a) && InRange(k, b)
    ensures r.None? <==> b == 0 || !InRange(k, TruncDiv(a, b))
    ensures r.None? <==> b == 0 || (k == I64 && a == MinValue(I64) && b == -1)
    ensures r.Some? ==> InRange(k, r.value) && r.value == a - b * TruncDiv(a, b)
  {
    if b == 0 then None
    else
      QuotientInRange(k, a, b);
      if k == I64 && a == MinValue(I64) && b == -1 then None
      else Some(TruncRem(a, b))
  }

  /** Only MIN / -1 takes a quotient out of range. */
  lemma QuotientInRange(k: IntKind, a: int, b: int)
    requires InRange(k, a) && InRange(k, b) && b != 0
    ensures InRange(k, TruncDiv(a, b)) <==> !(k == I64 && a == MinValue(I64) && b == -1)
    ensures InRange(k, TruncDiv(a, b)) ==> InRange(k, TruncRem(a, b))
  {
    var q := TruncDiv(a, b);
    QuotientMagnitude(a, b);
    if k == U64 {
      assert q >= 0;
    } else if Abs(b) >= 2 {
      assert -0x4000_0000_0000_0000 <= q <= 0x4000_0000_0000_0000;
    } else {
      assert q == (if b == 1 then a else -a);
    }
  }

  /** The quotient is no larger than the dividend, and at most half of it for a divisor of 2 or more. */
  lemma QuotientMagnitude(a: int, b: int)
    requires b != 0
    ensures Abs(TruncDiv(a, b)) <= Abs(a)
    ensures Abs(b) >= 2 ==> 2 * Abs(TruncDiv(a, b)) <= Abs(a)
    ensures Abs(b) == 1 ==> Abs(TruncDiv(a, b)) == Abs(a)
  {
    assert Abs(TruncDiv(a, b)) == Abs(a) / Abs(b);
    NatQuotientMagnitude(Abs(a), Abs(b));
  }

  lemma NatQuotientMagnitude(n: nat, d: nat)
    requires d >= 1
    ensures n / d <= n
    ensures d >= 2 ==> 2 * (n / d) <= n
    ensures d == 1 ==> n / d == n
  {
    var m := n / d;
    DivBounds(n, d);
    if m >= 1 {
      MulAtLeast(d, m);
      assert d * m == m * d;
      if d >= 2 {
        MulLeft(2, d, m);
      }
    }
  }

  datatype Ordering = Less | Equal | Greater {
    function Reverse(): Ordering
    {
      match this
      case Less => Greater
      case Equal => Equal
      case Greater => Less
    }
  }

  /** `Ord::cmp` of two integers. */
  function Cmp(a: int, b: int): (r: Ordering)
    ensures r == Less <==> a < b
    ensures r == Equal <==> a == b
    ensures r == Greater <==> a > b
  {
    if a < b then Less else if a == b then Equal else Greater
  }

  /** Subtracting what was added gives back the starting value. */
  lemma SubUndoesAdd(k: IntKind, a: int, b: int)
    requires InRange(k, a) && InRange(k, b) && CheckedAdd(k, a, b).Some?
    ensures CheckedSub(k, CheckedAdd(k, a, b).value, b) == Some(a)
  {
  }

  /** Quotient and remainder recompose the dividend. */
  lemma DivRemRecompose(k: IntKind, a: int, b: int)
    requires InRange(k, a) && InRange(k, b) && CheckedDiv(k, a, b).Some?
    ensures CheckedRem(k, a, b).Some?
    ensures CheckedDiv(k, a, b).value * b + CheckedRem(k, a, b).value == a
  {
  }
}
