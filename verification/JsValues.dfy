/**
 * The JavaScript values a range node can be handed, with just enough
 * structure for its `validate` and `render`: the `typeof` tag, strict
 * equality, and reading a named property.
 */
module JsValues {

  /** A JavaScript number. Only equality is used, so NaN and the infinities are not modelled. */
  type Number = real

  datatype Value =
    | Undefined
    | Null
    | Bool(b: bool)
    | Num(x: Number)
    | Str(s: string)
    /** A plain object with its own enumerable properties. */
    | Obj(fields: map<string, Value>)
    /** The `getValidationOption` sentinel: "left unspecified", unequal to every other value. */
    | ValidationOption
    /** A function, symbol or bigint: none of them is a number or an object. */
    | Other

  /** The results of JavaScript's `typeof` for the values above. */
  datatype TypeTag = TUndefined | TBoolean | TNumber | TString | TObject
    /** 'function', 'symbol' or 'bigint' */
    | TOther

  /** `typeof v`. `typeof null` is 'object'; the sentinel is taken to be an object. */
  function TypeOf(v: Value): TypeTag
  {
    match v
    case Undefined => TUndefined
    case Null => TObject
    case Bool(_) => TBoolean
    case Num(_) => TNumber
    case Str(_) => TString
    case Obj(_) => TObject
    case ValidationOption => TObject
    case Other => TOther
  }

  /**
   * `v[key]` on a value that is not `null` or `undefined`: the property of an
   * object, and `undefined` when it is absent or `v` has no such property.
   */
  function Field(v: Value, key: string): Value
    requires v != Null && v != Undefined
  {
    if v.Obj? && key in v.fields then v.fields[key] else Undefined
  }
}
