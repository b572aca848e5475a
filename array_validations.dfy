/** Field validators on an array value (src/composables/validations/array.ts). */
module ArrayValidations {
  import opened Js
  import opened Types

  /** `getValue`: the field's value, or `[]` when the data or its value is falsy. */
  function GetValue(data: Option<FieldData>): (v: Value)
    ensures data.Some? && Truthy(data.value.value) ==> v == data.value.value
    ensures !(data.Some? && Truthy(data.value.value)) ==> v == Arr([])
  {
    if data.Some? && Truthy(data.value.value) then data.value.value else Arr([])
  }

  /** An entry that is neither `undefined` nor `null`. */
  predicate Present(x: Value)
  {
    x != Undefined && x != Null
  }

  /** Whether the array is filled in: non-empty with every entry present. `required`
      defaults to `true`; a `null` or `false` flag lets anything pass. A non-empty
      string value has a `length` but no `every`, so the check throws. */
  function Required(data: Option<FieldData>, required: Arg<bool> := Omitted): (r: Outcome<bool>)
    ensures !RequiredOn(required) ==> r == Returned(true)
    ensures RequiredOn(required) && GetValue(data).Arr? ==>
      (r == Returned(true) <==> (var items := GetValue(data).items;
        |items| > 0 && forall i :: 0 <= i < |items| ==> Present(items[i])))
    ensures RequiredOn(required) && (data.None? || !Truthy(data.value.value)) ==> r == Returned(false)
    ensures r == TypeError <==> RequiredOn(required) && GetValue(data).Str?
    ensures RequiredOn(required) && !GetValue(data).Arr? && !GetValue(data).Str? ==> r == Returned(false)
  {
    var value := GetValue(data);
    if !RequiredOn(required) then Returned(true)
    else match value
      case Arr(items) => Returned(|items| > 0 && forall i :: 0 <= i < |items| ==> Present(items[i]))
      case Str(_) => TypeError
      case _ => Returned(false)
  }

  /** Minimum number of items: a falsy amount is no constraint. */
  function Minimum(data: Option<FieldData>, amount: Arg<real>): (r: bool)
    ensures !BoundSet(amount) ==> r
    ensures BoundSet(amount) && GetValue(data).Arr? ==>
      (r <==> |GetValue(data).items| as real >= amount.value)
    ensures BoundSet(amount) && (data.None? || !Truthy(data.value.value)) ==> (r <==> amount.value <= 0.0)
    ensures BoundSet(amount) && GetValue(data).Str? ==>
      (r <==> |GetValue(data).s| as real >= amount.value)
    ensures BoundSet(amount) && !GetValue(data).Arr? && !GetValue(data).Str? ==> !r
  {
    !BoundSet(amount) || AtLeast(NatToNumber(Length(GetValue(data))), ArgToNumber(amount))
  }

  /** Maximum number of items: a falsy amount is no constraint; an empty or missing
      array passes every non-negative amount. */
  function Maximum(data: Option<FieldData>, amount: Arg<real>): (r: bool)
    ensures !BoundSet(amount) ==> r
    ensures BoundSet(amount) && GetValue(data).Arr? ==>
      (r <==> |GetValue(data).items| as real <= amount.value)
    ensures BoundSet(amount) && (data.None? || !Truthy(data.value.value)) ==> (r <==> amount.value >= 0.0)
    ensures BoundSet(amount) && GetValue(data).Str? ==>
      (r <==> |GetValue(data).s| as real <= amount.value)
    ensures BoundSet(amount) && !GetValue(data).Arr? && !GetValue(data).Str? ==> !r
  {
    !BoundSet(amount) || AtMost(NatToNumber(Length(GetValue(data))), ArgToNumber(amount))
  }

  /** An omitted flag behaves as `true`. */
  lemma RequiredDefaultsToTrue(data: Option<FieldData>)
    ensures Required(data) == Required(data, Given(true))
  {
  }
}
