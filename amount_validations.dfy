/** Field validators on a numeric amount (src/composables/validations/amount.ts). */
module AmountValidations {
  import opened Js
  import opened Types

  /** `data?.value || 0`: the field's value, or the number zero when the data or its
      value is falsy. */
  function OrZero(data: Option<FieldData>): (v: Value)
    ensures data.Some? && Truthy(data.value.value) ==> v == data.value.value
    ensures !(data.Some? && Truthy(data.value.value)) ==> v == Num(0.0)
  {
    if data.Some? && Truthy(data.value.value) then data.value.value else Num(0.0)
  }

  /** `Number(data?.value || 0)`: the amount compared with the bounds, NaN being `None`. */
  function Amount(data: Option<FieldData>): (a: Option<real>)
    ensures data.Some? && data.value.value.Num? ==> a == Some(data.value.value.n)
    ensures data.None? || !Truthy(data.value.value) ==> a == Some(0.0)
    ensures data.Some? && data.value.value.Str? ==> a == StringToNumber(data.value.value.s)
  {
    assert data.Some? && Truthy(data.value.value) ==> OrZero(data) == data.value.value;
    ToNumber(OrZero(data))
  }

  /** Minimum amount: a falsy bound (`0`, `null`) is no constraint; otherwise the value,
      with missing data counting as 0, must be at least the bound. */
  function Minimum(data: Option<FieldData>, minimum: Arg<real>): (r: bool)
    ensures !BoundSet(minimum) ==> r
    ensures BoundSet(minimum) && data.Some? && data.value.value.Num? ==>
      (r <==> data.value.value.n >= minimum.value)
    ensures BoundSet(minimum) && (data.None? || !Truthy(data.value.value)) ==>
      (r <==> 0.0 >= minimum.value)
    ensures BoundSet(minimum) && data.Some? && data.value.value.Str? ==>
      (r <==> StringToNumber(data.value.value.s).Some? && StringToNumber(data.value.value.s).value >= minimum.value)
  {
    !BoundSet(minimum) || AtLeast(Amount(data), ArgToNumber(minimum))
  }

  /** Maximum amount: a falsy bound is no constraint; otherwise the value, with missing
      data counting as 0, must be at most the bound. */
  function Maximum(data: Option<FieldData>, maximum: Arg<real>): (r: bool)
    ensures !BoundSet(maximum) ==> r
    ensures BoundSet(maximum) && data.Some? && data.value.value.Num? ==>
      (r <==> data.value.value.n <= maximum.value)
    ensures BoundSet(maximum) && (data.None? || !Truthy(data.value.value)) ==>
      (r <==> 0.0 <= maximum.value)
    ensures BoundSet(maximum) && data.Some? && data.value.value.Str? ==>
      (r <==> StringToNumber(data.value.value.s).Some? && StringToNumber(data.value.value.s).value <= maximum.value)
  {
    !BoundSet(maximum) || AtMost(Amount(data), ArgToNumber(maximum))
  }

  /** A negative bound is a real constraint, and the bound is inclusive. */
  lemma NegativeBoundsAndBoundary(name: string)
    ensures !Minimum(Some(FieldData(name, Num(-123.0))), Given(-10.0))
    ensures Minimum(Some(FieldData(name, Num(-123.0))), Given(-123.0))
    ensures !Maximum(None, Given(-321.0))
    ensures Maximum(Some(FieldData(name, Num(123.0))), Given(123.0))
    ensures !Minimum(None, Given(10.0))
  {
  }
}
