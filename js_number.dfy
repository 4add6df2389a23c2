/** The numbers a JavaScript caller can pass as an amount, classified as far as the
    validation code looks at them. */
module JsNumber {

  /** `Int(i)` is a finite number with no fractional part; `Fraction` is any other finite
      number (1.5, 0.5, -1.5); `NaN` and `Infinity` (either sign) are the IEEE specials. */
  datatype Amount = Int(i: int) | Fraction | NaN | Infinity

  /** The global `isNaN`. */
  predicate IsNaN(a: Amount) {
    a.NaN?
  }

  /** `Number.isInteger`: false for NaN, the infinities and fractions. */
  predicate IsInteger(a: Amount) {
    a.Int?
  }

  /** `a <= 0` for an integral amount. */
  predicate AtMostZero(a: Amount)
    requires IsInteger(a)
  {
    a.i <= 0
  }
}
