/**
  The loosely typed argument values the catalog receives. The catalog's
  validation distinguishes a missing value, a value of the wrong kind and a
  value out of range, so arguments are modelled as primitive JavaScript values
  rather than as already-typed parameters.
 */
module JsValues {

  /** Primitive values; numbers are restricted to integers (no NaN, no fractions). */
  datatype JsValue =
    | Undefined
    | Null
    | Bool(b: bool)
    | Num(n: int)
    | Str(s: string)

  /** JavaScript truthiness: `!v` holds exactly when this is false. */
  predicate Truthy(v: JsValue) {
    match v
    case Undefined => false
    case Null => false
    case Bool(b) => b
    case Num(n) => n != 0
    case Str(s) => s != ""
  }

  /** `v == null` under loose equality: only null and undefined. */
  predicate IsNullish(v: JsValue) {
    v.Undefined? || v.Null?
  }

  /** `typeof v === 'number' && v > 0`, the id and amount check of purchase and restock. */
  predicate IsPositiveNumber(v: JsValue) {
    v.Num? && v.n > 0
  }
}
