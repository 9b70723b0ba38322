/** The values the pipeline produces, and the errors it throws. */
module Values {
  import opened Dicts

  /**
   * A JavaScript value as the converter and the composer produce it: a string, a
   * number (without NaN, infinities or rounding), a boolean, an array, a plain
   * object, or `null`.
   */
  datatype Value =
    | Null
    | Str(s: string)
    | Num(n: real)
    | Bool(b: bool)
    | Arr(items: seq<Value>)
    | Obj(fields: Dict<Value>)

  /**
   * A thrown error: a `ConvertError` (src/lib/convert.ts:52-57), which the
   * converter's fallback loop recovers from, or any other error, which it does not.
   */
  datatype Exception =
    | ConvertError(message: string)
    | OtherError(message: string)
}
