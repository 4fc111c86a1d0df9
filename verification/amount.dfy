/**
 * `Amount`, a count of satoshis held in a u64 (src/util/amount.rs), with checked addition
 * and subtraction and the `+` / `-` operators that panic when the checked form fails.
 */
module Amount {
  import opened Integers
  import opened Wrappers
  import Checked

  datatype Amount = Amount(sat: u64)

  const MAX_SAT: int := Checked.MaxValue(Checked.U64)

  function FromSat(satoshis: u64): (a: Amount)
    ensures AsSat(a) == satoshis
  {
    Amount(satoshis)
  }

  /** `as_sat`: the satoshi count, which determines the amount. */
  function AsSat(a: Amount): (r: u64)
    ensures Amount(r) == a
  {
    a.sat
  }

  /** The u64 sum, or None when it overflows. */
  function CheckedAdd(a: Amount, b: Amount): (r: Option<Amount>)
    ensures r.Some? <==> a.sat + b.sat <= MAX_SAT
    ensures r.Some? ==> r.value.sat == a.sat + b.sat
  {
    match Checked.CheckedAdd(Checked.U64, a.sat, b.sat)
    case Some(s) => Some(Amount(s))
    case None => None
  }

  /** The u64 difference, or None when it would go below zero. */
  function CheckedSub(a: Amount, b: Amount): (r: Option<Amount>)
    ensures r.Some? <==> b.sat <= a.sat
    ensures r.Some? ==> r.value.sat == a.sat - b.sat
  {
    match Checked.CheckedSub(Checked.U64, a.sat, b.sat)
    case Some(s) => Some(Amount(s))
    case None => None
  }

  /** `a + b`; panics (here: is not callable) when the checked sum is None. */
  function Add(a: Amount, b: Amount): (r: Amount)
    requires CheckedAdd(a, b).Some?
    ensures r.sat == a.sat + b.sat
  {
    CheckedAdd(a, b).value
  }

  /** `a - b`; panics (here: is not callable) when the checked difference is None. */
  function Sub(a: Amount, b: Amount): (r: Amount)
    requires CheckedSub(a, b).Some?
    ensures r.sat == a.sat - b.sat
  {
    CheckedSub(a, b).value
  }

  /** `PartialEq::eq`, delegated to the satoshi counts. */
  function Eq(a: Amount, b: Amount): (r: bool)
    ensures r <==> a == b
  {
    a.sat == b.sat
  }

  /** Wrapping and unwrapping a satoshi count are inverse. */
  lemma FromSatAsSat(n: u64, a: Amount)
    ensures AsSat(FromSat(n)) == n
    ensures FromSat(AsSat(a)) == a
  {
  }

  /** Subtraction undoes addition, through the operators as through the checked forms. */
  lemma SubUndoesAdd(a: Amount, b: Amount)
    requires CheckedAdd(a, b).Some?
    ensures CheckedSub(Add(a, b), b) == Some(a)
    ensures Sub(Add(a, b), b) == a
  {
  }

  /** The arithmetic test of amount.rs. */
  lemma AddSubtractVectors()
    ensures Add(FromSat(15), FromSat(15)) == FromSat(30)
    ensures Sub(FromSat(15), FromSat(15)) == FromSat(0)
  {
  }
}
