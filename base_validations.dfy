/** Field validators on the length of a string value
    (src/composables/validations/base.ts). */
module BaseValidations {
  import opened Js
  import opened Types

  /** `getValue`: the field's value, or `''` when the data or its value is falsy. */
  function GetValue(data: Option<FieldData>): (v: Value)
    ensures Truthy(v) <==> data.Some? && Truthy(data.value.value)
    ensures Truthy(v) ==> v == data.value.value
    ensures !Truthy(v) ==> v == Str("")
  {
    if data.Some? && Truthy(data.value.value) then data.value.value else Str("")
  }

  /** Whether the value counts as filled in. `required` defaults to `true`; a `null`
      or `false` flag lets anything pass. A required field passes when there is data
      and its value is truthy or the number zero. */
  function Required(data: Option<FieldData>, required: Arg<bool> := Omitted): (r: bool)
    ensures !RequiredOn(required) ==> r
    ensures RequiredOn(required) ==>
      (r <==> data.Some? && data.value.value !in {Undefined, Null, Bool(false), Str("")})
  {
    !RequiredOn(required) || (data.Some? && (Truthy(data.value.value) || data.value.value == Num(0.0)))
  }

  /** Minimum length: a falsy bound is no constraint; otherwise the value must be a
      non-empty string (or array) at least that long. */
  function Minimum(data: Option<FieldData>, length: Arg<real>): (r: bool)
    ensures !BoundSet(length) ==> r
    ensures BoundSet(length) && data.Some? && data.value.value.Str? ==>
      (r <==> data.value.value.s != "" && |data.value.value.s| as real >= length.value)
    ensures BoundSet(length) && data.Some? && data.value.value.Arr? ==>
      (r <==> |data.value.value.items| as real >= length.value)
    ensures BoundSet(length) && (data.None? || !Truthy(data.value.value)) ==> !r
    ensures BoundSet(length) && data.Some? && (data.value.value.Num? || data.value.value.Bool?) ==> !r
  {
    var value := GetValue(data);
    !BoundSet(length) || (Truthy(value) && AtLeast(NatToNumber(Length(value)), ArgToNumber(length)))
  }

  /** Maximum length: a falsy bound is no constraint; otherwise the value must be a
      non-empty string (or array) at most that long, so an empty value fails. */
  function Maximum(data: Option<FieldData>, length: Arg<real>): (r: bool)
    ensures !BoundSet(length) ==> r
    ensures BoundSet(length) && data.Some? && data.value.value.Str? ==>
      (r <==> data.value.value.s != "" && |data.value.value.s| as real <= length.value)
    ensures BoundSet(length) && data.Some? && data.value.value.Arr? ==>
      (r <==> |data.value.value.items| as real <= length.value)
    ensures BoundSet(length) && (data.None? || !Truthy(data.value.value)) ==> !r
    ensures BoundSet(length) && data.Some? && (data.value.value.Num? || data.value.value.Bool?) ==> !r
  {
    var value := GetValue(data);
    !BoundSet(length) || (Truthy(value) && AtMost(NatToNumber(Length(value)), ArgToNumber(length)))
  }

  /** An omitted flag behaves as `true`. */
  lemma RequiredDefaultsToTrue(data: Option<FieldData>)
    ensures Required(data) == Required(data, Given(true))
  {
  }
}
