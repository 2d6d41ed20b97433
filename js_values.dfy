/** The few shapes of JavaScript value that the validator and the game inspect. Numbers are split into
    integers and everything else (fractions, NaN, the infinities), so no floating point
    is needed: the code under model only ever asks `Number.isInteger` and compares. */
module JsValues {

  datatype Option<+T> = None | Some(value: T)

  /** A JavaScript `number`: an integer value, or one for which `Number.isInteger` is false. */
  datatype Number = Integer(value: int) | NonInteger

  /** An untyped JavaScript value as it arrives in a request body. */
  datatype Value = Str(s: string) | Num(num: Number) | Other
}
