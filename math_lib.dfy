/**
 * The floating-point library the program calls into. The constant pi and the
 * functions sin and cos are never evaluated: every member that needs one
 * receives a `Math` value and treats its entries as uninterpreted. The
 * absolute value is exact.
 */
module MathLib {

  datatype Math = Math(pi: real, sin: real -> real, cos: real -> real)

  /** The one fact about the library the model relies on. */
  predicate PositivePi(m: Math) {
    m.pi > 0.0
  }

  /** pr::abs / std::abs on a real. */
  function Abs(x: real): real {
    if x < 0.0 then -x else x
  }
}
