/** The four arithmetic operators that the vector and colour operator macros are
    instantiated with (raytracer/src/vector.rs:141-146, raytracer/src/color.rs:59-64). */
module Arith {

  datatype Op = Plus | Minus | Times | Over

  /** One component of `a $op b`: division needs a non-zero divisor, since the
      IEEE infinities and NaN are not modelled. */
  predicate Defined(op: Op, b: real) {
    op == Over ==> b != 0.0
  }

  function Apply(op: Op, a: real, b: real): real
    requires Defined(op, b)
  {
    match op
    case Plus => a + b
    case Minus => a - b
    case Times => a * b
    case Over => a / b
  }
}
