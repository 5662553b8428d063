/**
 * The four arithmetic operators of the calculator and the arithmetic they
 * stand for, on real numbers. A division by zero has no real result and is
 * reported as `None` (IEEE infinities and NaN are not modelled).
 */
module Operations {
  import opened Wrappers

  datatype Operator = Add | Subtract | Multiply | Divide
  {
    /** `left` combined with `right`; there is no result exactly when dividing by zero. */
    function Calculate(left: real, right: real): (r: Option<real>)
      ensures r.None? <==> (this == Divide && right == 0.0)
    {
      match this
      case Add => Some(left + right)
      case Subtract => Some(left - right)
      case Multiply => Some(left * right)
      case Divide => if right == 0.0 then None else Some(left / right)
    }
  }

  /** Adding and multiplying do not depend on the order of their operands. */
  lemma Commutative(op: Operator, a: real, b: real)
    requires op == Add || op == Multiply
    ensures op.Calculate(a, b) == op.Calculate(b, a)
  {
  }

  /** The value of one application, stated on its own so that it can be instantiated at any operands. */
  lemma Applied(op: Operator, x: real, y: real)
    requires op == Multiply || y != 0.0
    ensures op == Multiply ==> op.Calculate(x, y) == Some(x * y)
    ensures op == Divide ==> op.Calculate(x, y) == Some(x / y)
  {
  }
}
