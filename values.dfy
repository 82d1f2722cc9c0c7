/** Python values as `json.load` produces them, plus the `datetime` objects the loaders write back. */
module Values {
  import opened Timestamps

  /**
   * A JSON number with a fraction or exponent is a Python float, modelled
   * here as an exact real; NaN and the infinities are not modelled.
   */
  datatype Value =
    | JNull
    | JBool(b: bool)
    | JInt(i: int)
    | JFloat(f: real)
    | JStr(s: string)
    | JArr(items: seq<Value>)
    | JObj(fields: map<string, Value>)
    | JTime(t: DateTime)

  /** `float.is_integer()` */
  predicate IsIntegral(r: real) {
    r.Floor as real == r
  }

}
