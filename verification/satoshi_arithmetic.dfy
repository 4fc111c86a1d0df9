/**
 * The `SatoshiArithmetic` derive (macros/src/lib.rs): which items it accepts, and the behaviour
 * of the code it generates for a tuple struct `S(u64)` or `S(i64)` — construction, checked
 * arithmetic, the panicking operators, the compound assignments, bounds and ordering.
 */
module SatoshiArithmetic {
  import opened Wrappers
  import Checked

  /** A value of a derived tuple struct: its inner type and its inner integer. */
  datatype Satoshis = Satoshis(kind: Checked.IntKind, inner: int) {
    predicate Valid()
    {
      Checked.InRange(kind, inner)
    }
  }

  /** Two values of the same derived struct type. */
  predicate SameType(a: Satoshis, b: Satoshis)
  {
    a.Valid() && b.Valid() && a.kind == b.kind
  }

  /** `Option::map(S)`: wraps a checked inner result back into the struct. */
  function Lift(k: Checked.IntKind, o: Option<int>): (r: Option<Satoshis>)
    ensures r.Some? <==> o.Some?
    ensures r.Some? ==> r.value == Satoshis(k, o.value)
  {
    match o
    case Some(x) => Some(Satoshis(k, x))
    case None => None
  }

  function FromSat(k: Checked.IntKind, satoshis: int): (r: Satoshis)
    requires Checked.InRange(k, satoshis)
    ensures r.Valid() && r.kind == k && AsSat(r) == satoshis
  {
    Satoshis(k, satoshis)
  }

  /** `as_sat`: the inner integer, which determines the value of its kind. */
  function AsSat(a: Satoshis): (r: int)
    ensures a.Valid() ==> Checked.InRange(a.kind, r)
    ensures Satoshis(a.kind, r) == a
  {
    a.inner
  }

  function CheckedAdd(a: Satoshis, b: Satoshis): (r: Option<Satoshis>)
    requires SameType(a, b)
    ensures r.Some? <==> Checked.InRange(a.kind, a.inner + b.inner)
    ensures r.Some? ==> r.value.Valid() && r.value == Satoshis(a.kind, a.inner + b.inner)
  {
    Lift(a.kind, Checked.CheckedAdd(a.kind, a.inner, b.inner))
  }

  function CheckedSub(a: Satoshis, b: Satoshis): (r: Option<Satoshis>)
    requires SameType(a, b)
    ensures r.Some? <==> Checked.InRange(a.kind, a.inner - b.inner)
    ensures r.Some? ==> r.value.Valid() && r.value == Satoshis(a.kind, a.inner - b.inner)
  {
    Lift(a.kind, Checked.CheckedSub(a.kind, a.inner, b.inner))
  }

  /** Multiplication by a plain integer of the inner type. */
  function CheckedMul(a: Satoshis, rhs: int): (r: Option<Satoshis>)
    requires a.Valid() && Checked.InRange(a.kind, rhs)
    ensures r.Some? <==> Checked.InRange(a.kind, a.inner * rhs)
    ensures r.Some? ==> r.value.Valid() && r.value == Satoshis(a.kind, a.inner * rhs)
  {
    Lift(a.kind, Checked.CheckedMul(a.kind, a.inner, rhs))
  }

  /** Division by a plain integer, rounding toward zero: the remainder is lost. */
  function CheckedDiv(a: Satoshis, rhs: int): (r: Option<Satoshis>)
    requires a.Valid() && Checked.InRange(a.kind, rhs)
    ensures r.None? <==> rhs == 0 || (a.kind == Checked.I64 && a.inner == Checked.MinValue(Checked.I64) && rhs == -1)
    ensures r.Some? ==> r.value.Valid() && r.value.kind == a.kind
    ensures r.Some? ==> Checked.Abs(r.value.inner) * Checked.Abs(rhs) <= Checked.Abs(a.inner)
    ensures r.Some? ==> r.value.inner == Checked.TruncDiv(a.inner, rhs)
  {
    Lift(a.kind, Checked.CheckedDiv(a.kind, a.inner, rhs))
  }

  /** Remainder by a plain integer: signed like the dividend, smaller than the divisor. */
  function CheckedRem(a: Satoshis, rhs: int): (r: Option<Satoshis>)
    requires a.Valid() && Checked.InRange(a.kind, rhs)
    ensures r.None? <==> rhs == 0 || (a.kind == Checked.I64 && a.inner == Checked.MinValue(Checked.I64) && rhs == -1)
    ensures r.Some? ==> r.value.Valid() && r.value.kind == a.kind
    ensures r.Some? ==> Checked.Abs(r.value.inner) < Checked.Abs(rhs)
    ensures r.Some? ==> r.value.inner == 0 || ((r.value.inner < 0) <==> (a.inner < 0))
    ensures r.Some? ==> a.inner == Checked.TruncDiv(a.inner, rhs) * rhs + r.value.inner
  {
    Lift(a.kind, Checked.CheckedRem(a.kind, a.inner, rhs))
  }

  /** The largest value of the struct: the inner type's maximum. */
  function MaxValue(k: Checked.IntKind): (r: Satoshis)
    ensures r.Valid() && r.kind == k
    ensures forall x :: Checked.InRange(k, x) ==> x <= r.inner
  {
    Satoshis(k, Checked.MaxValue(k))
  }

  /** The smallest value of the struct: the inner type's minimum. */
  function MinValue(k: Checked.IntKind): (r: Satoshis)
    ensures r.Valid() && r.kind == k
    ensures forall x :: Checked.InRange(k, x) ==> r.inner <= x
  {
    Satoshis(k, Checked.MinValue(k))
  }

  /** `a + b`: panics (here: is not callable) when `checked_add` is None. */
  function Add(a: Satoshis, b: Satoshis): (r: Satoshis)
    requires SameType(a, b) && CheckedAdd(a, b).Some?
    ensures r.Valid() && r.kind == a.kind && r.inner == a.inner + b.inner
  {
    CheckedAdd(a, b).value
  }

  function Sub(a: Satoshis, b: Satoshis): (r: Satoshis)
    requires SameType(a, b) && CheckedSub(a, b).Some?
    ensures r.Valid() && r.kind == a.kind && r.inner == a.inner - b.inner
  {
    CheckedSub(a, b).value
  }

  function Mul(a: Satoshis, rhs: int): (r: Satoshis)
    requires a.Valid() && Checked.InRange(a.kind, rhs) && CheckedMul(a, rhs).Some?
    ensures r.Valid() && r.kind == a.kind && r.inner == a.inner * rhs
  {
    CheckedMul(a, rhs).value
  }

  function Div(a: Satoshis, rhs: int): (r: Satoshis)
    requires a.Valid() && Checked.InRange(a.kind, rhs) && CheckedDiv(a, rhs).Some?
    ensures r.Valid() && r.kind == a.kind
    ensures Checked.Abs(r.inner) * Checked.Abs(rhs) <= Checked.Abs(a.inner) < (Checked.Abs(r.inner) + 1) * Checked.Abs(rhs)
    ensures r.inner == 0 || ((r.inner < 0) <==> ((a.inner < 0) != (rhs < 0)))
    ensures r.inner == Checked.TruncDiv(a.inner, rhs)
  {
    CheckedDiv(a, rhs).value
  }

  function Rem(a: Satoshis, rhs: int): (r: Satoshis)
    requires a.Valid() && Checked.InRange(a.kind, rhs) && CheckedRem(a, rhs).Some?
    ensures r.Valid() && r.kind == a.kind
    ensures Checked.Abs(r.inner) < Checked.Abs(rhs)
    ensures r.inner == 0 || ((r.inner < 0) <==> (a.inner < 0))
    ensures r.inner == Checked.TruncRem(a.inner, rhs)
  {
    CheckedRem(a, rhs).value
  }

  /** `Ord::cmp`, delegated to the inner integers. */
  function Cmp(a: Satoshis, b: Satoshis): (r: Checked.Ordering)
    requires SameType(a, b)
    ensures r == Checked.Less <==> a.inner < b.inner
    ensures r == Checked.Equal <==> a == b
    ensures r == Checked.Greater <==> a.inner > b.inner
  {
    Checked.Cmp(a.inner, b.inner)
  }

  /** `PartialOrd::partial_cmp`: always defined, since the inner order is total. */
  function PartialCmp(a: Satoshis, b: Satoshis): (r: Option<Checked.Ordering>)
    requires SameType(a, b)
    ensures r.Some?
    ensures r.value == Checked.Less <==> a.inner < b.inner
    ensures r == Some(Cmp(a, b))
  {
    Some(Checked.Cmp(a.inner, b.inner))
  }

  /** `Cmp` is a total order: antisymmetric, transitive, and Equal only on equal values. */
  lemma CmpIsTotalOrder(a: Satoshis, b: Satoshis, c: Satoshis)
    requires SameType(a, b) && SameType(b, c)
    ensures Cmp(b, a) == Cmp(a, b).Reverse()
    ensures Cmp(a, b) == Checked.Less && Cmp(b, c) == Checked.Less ==> Cmp(a, c) == Checked.Less
    ensures Cmp(a, b) == Checked.Equal <==> a == b
    ensures PartialCmp(a, b) == Some(Cmp(a, b))
  {
  }

  /** Every value lies between `min_value()` and `max_value()`. */
  lemma WithinBounds(a: Satoshis)
    requires a.Valid()
    ensures Cmp(MinValue(a.kind), a) != Checked.Greater
    ensures Cmp(a, MaxValue(a.kind)) != Checked.Greater
  {
  }

  /** Quotient times divisor plus remainder is the dividend. */
  lemma DivRemRecompose(a: Satoshis, rhs: int)
    requires a.Valid() && Checked.InRange(a.kind, rhs) && CheckedDiv(a, rhs).Some?
    ensures CheckedRem(a, rhs).Some?
    ensures Div(a, rhs).inner * rhs + Rem(a, rhs).inner == a.inner
  {
  }

  /** A place of a derived struct type (`&mut S`), the target of `+=`, `-=`, `*=`, `/=` and `%=`. */
  class Place {
    var value: Satoshis

    constructor (v: Satoshis)
      ensures value == v
    {
      value := v;
    }

    /** `*self = *self + other` */
    method AddAssign(other: Satoshis)
      requires SameType(value, other) && CheckedAdd(value, other).Some?
      modifies this
      ensures value == Add(old(value), other)
    {
      value := Add(value, other);
    }

    /** `*self = *self - other` */
    method SubAssign(other: Satoshis)
      requires SameType(value, other) && CheckedSub(value, other).Some?
      modifies this
      ensures value == Sub(old(value), other)
    {
      value := Sub(value, other);
    }

    /** `*self = *self * rhs` */
    method MulAssign(rhs: int)
      requires value.Valid() && Checked.InRange(value.kind, rhs) && CheckedMul(value, rhs).Some?
      modifies this
      ensures value == Mul(old(value), rhs)
    {
      value := Mul(value, rhs);
    }

    /** `*self = *self / rhs` */
    method DivAssign(rhs: int)
      requires value.Valid() && Checked.InRange(value.kind, rhs) && CheckedDiv(value, rhs).Some?
      modifies this
      ensures value == Div(old(value), rhs)
    {
      value := Div(value, rhs);
    }

    /** `*self = *self % rhs` */
    method RemAssign(rhs: int)
      requires value.Valid() && Checked.InRange(value.kind, rhs) && CheckedRem(value, rhs).Some?
      modifies this
      ensures value == Rem(old(value), rhs)
    {
      value := Rem(value, rhs);
    }
  }

  // ---------------------------------------------------------------------------------------
  // Which items the derive accepts (`impl_formulate`)
  // ---------------------------------------------------------------------------------------

  /** A field's type as `impl_formulate` sees it: a path (by the ident of its first segment) or anything else. */
  datatype FieldType = PathType(firstSegment: string) | OtherType

  datatype Fields = NamedFields | UnnamedFields(types: seq<FieldType>) | UnitFields

  /** The item the derive is attached to. */
  datatype Item = StructItem(fields: Fields) | EnumItem | UnionItem

  /** What the derive produces: the generated impls, a compile error, or a panic of the macro. */
  datatype DeriveOutcome = Generated(kind: Checked.IntKind) | CompileError(message: string) | Panicked(message: string)

  /** A tuple struct with at least one field, whose first field's type is the path `u64` or `i64`. */
  predicate Derivable(item: Item)
  {
    && item.StructItem?
    && item.fields.UnnamedFields?
    && |item.fields.types| > 0
    && item.fields.types[0].PathType?
    && (item.fields.types[0].firstSegment == "u64" || item.fields.types[0].firstSegment == "i64")
  }

  /** `impl_formulate` as written: the `assert!` panics before the graceful error can be returned. */
  function FormulateAsWritten(item: Item): (r: DeriveOutcome)
    ensures r.Generated? <==> Derivable(item)
    ensures r.Panicked? <==> !Derivable(item) && item.StructItem? && item.fields.UnnamedFields?
                             && |item.fields.types| > 0 && item.fields.types[0].PathType?
  {
    if !item.StructItem? then CompileError("Only works for structs!")
    else if !item.fields.UnnamedFields? then CompileError("Only work for tuple structs!")
    else if |item.fields.types| == 0 then CompileError("This tuple struct must have at least one field!")
    else if !item.fields.types[0].PathType? then CompileError("expected a path in this struct!")
    else
      var name := item.fields.types[0].firstSegment;
      if !(name == "i64" || name == "u64") then Panicked("This macro only works for i64/u64")
      else if name != "i64" && name != "u64" then CompileError("expected u64 or i64")
      else Generated(if name == "u64" then Checked.U64 else Checked.I64)
  }

  /** `impl_formulate` with the intended graceful rejection of other integer types. */
  function Formulate(item: Item): (r: DeriveOutcome)
    ensures r.Generated? <==> Derivable(item)
    ensures r.Generated? ==> (r.kind == Checked.U64 <==> item.fields.types[0].firstSegment == "u64")
    ensures !r.Panicked?
    ensures r.CompileError? ==> FormulateAsWritten(item) == r || FormulateAsWritten(item).Panicked?
  {
    if !item.StructItem? then CompileError("Only works for structs!")
    else if !item.fields.UnnamedFields? then CompileError("Only work for tuple structs!")
    else if |item.fields.types| == 0 then CompileError("This tuple struct must have at least one field!")
    else if !item.fields.types[0].PathType? then CompileError("expected a path in this struct!")
    else
      var name := item.fields.types[0].firstSegment;
      if name != "i64" && name != "u64" then CompileError("expected u64 or i64")
      else Generated(if name == "u64" then Checked.U64 else Checked.I64)
  }

  /**
   * The error "expected u64 or i64" is unreachable as written: a struct over u32 makes the
   * macro panic, where the corrected version reports the compile error.
   */
  lemma AssertPreemptsCompileError(item: Item)
    ensures FormulateAsWritten(item) != CompileError("expected u64 or i64")
    ensures FormulateAsWritten(StructItem(UnnamedFields([PathType("u32")]))) == Panicked("This macro only works for i64/u64")
    ensures Formulate(StructItem(UnnamedFields([PathType("u32")]))) == CompileError("expected u64 or i64")
  {
  }

  /** The two amount shapes are accepted, with the matching inner type. */
  lemma AmountShapesDerive()
    ensures Formulate(StructItem(UnnamedFields([PathType("u64")]))) == Generated(Checked.U64)
    ensures Formulate(StructItem(UnnamedFields([PathType("i64")]))) == Generated(Checked.I64)
    ensures Formulate(StructItem(NamedFields)).CompileError?
  {
  }
}
