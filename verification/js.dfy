/** The JavaScript values the widget computes with.

    A JavaScript number is an IEEE double; the model keeps its real value when it
    is finite and tags NaN and the two infinities.  Rounding to doubles and the
    sign of zero are not represented. */
module Js {

  datatype Option<+T> = None | Some(value: T) {
    /** `x ?? default` */
    function GetOr(default: T): T {
      match this
      case Some(v) => v
      case None => default
    }
  }

  /** The outcome of a call that may throw: the thrown `Error`'s message on failure. */
  datatype Result<+T> = Ok(value: T) | Err(message: string)

  datatype Number = Fin(v: real) | NaN | Inf(positive: bool)

  /** JavaScript truthiness of a number: 0 and NaN are falsy. */
  predicate Truthy(n: Number) {
    (n.Fin? && n.v != 0.0) || n.Inf?
  }

  /** `a / b` for finite operands; a zero divisor is taken as +0. */
  function DivReal(a: real, b: real): Number {
    if b != 0.0 then Fin(a / b)
    else if a == 0.0 then NaN
    else Inf(a > 0.0)
  }

  /** `a / d` for a finite numerator and any divisor. */
  function Div(a: real, d: Number): Number {
    match d
    case Fin(x) => DivReal(a, x)
    case NaN => NaN
    case Inf(_) => Fin(0.0)
  }

  /** `a * b` */
  function Mul(a: Number, b: Number): Number {
    match (a, b)
    case (NaN, _) => NaN
    case (_, NaN) => NaN
    case (Fin(x), Fin(y)) => Fin(x * y)
    case (Inf(p), Fin(y)) => if y == 0.0 then NaN else Inf(p == (y > 0.0))
    case (Fin(x), Inf(p)) => if x == 0.0 then NaN else Inf(p == (x > 0.0))
    case (Inf(p), Inf(q)) => Inf(p == q)
  }

  /** `Math.trunc(y)` */
  function Trunc(y: real): int {
    if y >= 0.0 then y.Floor else -((-y).Floor)
  }

  /** `x % m` on finite numbers: the remainder of the division truncated
      towards zero, so it takes the sign of `x`. */
  function Rem(x: real, m: real): real
    requires m != 0.0
  {
    x - m * Trunc(x / m) as real
  }
}
