/** The few JavaScript values the model needs, an optional value, and `Math.min`/`Math.max`
    on integers. */
module Values {

  /** Some/None, used for JavaScript's "found or undefined" results. */
  datatype Option<+T> = None | Some(value: T)

  /** A JavaScript number-or-undefined, as far as this model needs one:
      `undefined`, `NaN`, or a number (node ids and weights are integers here). */
  datatype Value = Undefined | NaN | Number(n: int)

  /** JavaScript's global `isNaN`: true of `NaN` and of `undefined`, which coerces to `NaN`. */
  predicate IsNaN(v: Value)
  {
    !v.Number?
  }

  function Min(a: int, b: int): int
  {
    if a <= b then a else b
  }

  function Max(a: int, b: int): int
  {
    if a <= b then b else a
  }
}
