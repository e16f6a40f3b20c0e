/** The JavaScript values that travel from the courier's tracking reply into the
    `app_orders` table. */
module JsValues {

  /** A JavaScript value as it can appear in a field of a tracking record.
      `Composite` stands for any object or array; numbers are exact reals (there
      is no NaN among the values a tracking record carries). */
  datatype Value = Undefined | Null | Num(x: real) | Str(s: string) | Bool(b: bool) | Composite

  /** `v === 1`: strict equality holds for the number 1 and nothing else, so the
      string "1", the boolean `true` and an absent field are all "not 1". */
  predicate IsOne(v: Value)
  {
    v == Num(1.0)
  }
}
