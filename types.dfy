/** The shapes shared by the validation composables (src/composables/types.ts). */
module Types {
  import opened Js

  /** The `{ name, value }` pair every input emits. */
  datatype FieldData = FieldData(name: string, value: Value)

  /** A validation parameter, `string | number | boolean` in the declaration; the
      validators read booleans and numbers only. */
  datatype Param = PBool(b: bool) | PNum(n: real)

  /** A parameter as the JavaScript value it is. */
  function ParamValue(p: Param): Value
  {
    match p
    case PBool(b) => Bool(b)
    case PNum(n) => Num(n)
  }

  /** `validator(data, ...parameters)`: a pure predicate that may throw. */
  type Validator = (FieldData, seq<Param>) -> Outcome<bool>

  /** A named validator with optional parameters (`parameters?: ...`). */
  datatype ValidationMethod = ValidationMethod(name: string, validator: Validator, parameters: Option<seq<Param>>)
}
