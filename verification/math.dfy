/** The numeric helpers of the widget: `clamp`, `toPrecision` and
    `changeWithStep`, over the reals, and their lifting to JavaScript numbers
    (NaN and the infinities) for the call sites whose inputs can be such. */
module MathUtil {
  import opened Js

  function Min(a: real, b: real): real { if a <= b then a else b }
  function Max(a: real, b: real): real { if a >= b then a else b }
  function Abs(x: real): real { if x < 0.0 then -x else x }

  /** `Math.round(x)`: the nearest integer, halves rounded up. */
  function Round(x: real): (k: int)
    ensures x - 0.5 < k as real <= x + 0.5
  {
    (x + 0.5).Floor
  }

  /** `Math.min(Math.max(value, min), max)` */
  function Clamp(value: real, min: real, max: real): (r: real)
    ensures min <= max ==> min <= r <= max
    ensures min <= value <= max ==> r == value
    ensures value < min && min <= max ==> r == min
    ensures value > max ==> r == max
    ensures min > max ==> r == max
  {
    Min(Max(value, min), max)
  }

  /** On a non-empty range `clamp` picks the point of the range nearest to the value. */
  lemma ClampIsNearest(value: real, min: real, max: real, y: real)
    requires min <= max && min <= y <= max
    ensures Abs(Clamp(value, min, max) - value) <= Abs(y - value)
  {
  }

  /** On a non-empty range `clamp` never moves two values further apart. */
  lemma ClampNonExpansive(a: real, b: real, min: real, max: real)
    requires min <= max
    ensures Abs(Clamp(a, min, max) - Clamp(b, min, max)) <= Abs(a - b)
  {
  }

  predicate IsInteger(x: real) {
    x.Floor as real == x
  }

  /** `10 ** p` */
  function Pow10(p: nat): (r: real)
    ensures r >= 1.0
  {
    if p == 0 then 1.0 else 10.0 * Pow10(p - 1)
  }

  /** `Math.floor(value * pow) / pow` for a power of ten `pow`. */
  function Truncate(value: real, pow: real): (r: real)
    requires pow >= 1.0
    ensures r <= value
    ensures (value - r) * pow < 1.0
  {
    var floored := (value * pow).Floor;
    TruncationFacts(value, pow, floored);
    floored as real / pow
  }

  /** `toPrecision(value, precision)`: `value` truncated towards minus
      infinity to `precision` decimal places, so at most one unit of the last
      place below it. */
  function ToPrecision(value: real, precision: nat): (r: real)
    ensures r <= value
    ensures (value - r) * Pow10(precision) < 1.0
  {
    Truncate(value, Pow10(precision))
  }

  lemma DivMul(a: real, b: real)
    requires b != 0.0
    ensures (a / b) * b == a
  {
  }

  lemma TruncationFacts(v: real, pow: real, k: int)
    requires pow >= 1.0
    requires k as real <= v * pow < k as real + 1.0
    ensures k as real / pow <= v
    ensures (v - k as real / pow) * pow < 1.0
  {
    var r := k as real / pow;
    DivMul(k as real, pow);
    assert (v - r) * pow == v * pow - r * pow;
    if r > v {
      assert r * pow > v * pow;
    }
  }

  lemma TruncateUnfold(value: real, pow: real)
    requires pow >= 1.0
    ensures Truncate(value, pow) == (value * pow).Floor as real / pow
  {
  }

  lemma ScaleBack(k: int, pow: real)
    requires pow >= 1.0
    ensures ((k as real / pow) * pow).Floor == k
  {
    DivMul(k as real, pow);
  }

  lemma {:induction false} TruncateIdempotent(value: real, pow: real)
    requires pow >= 1.0
    ensures Truncate(Truncate(value, pow), pow) == Truncate(value, pow)
  {
    var k := (value * pow).Floor;
    var q := k as real / pow;
    TruncateUnfold(value, pow);
    assert Truncate(value, pow) == q;
    TruncateUnfold(q, pow);
    ScaleBack(k, pow);
    assert (q * pow).Floor == k;
    assert Truncate(q, pow) == q;
  }

  /** Truncating twice to the same precision is truncating once. */
  lemma ToPrecisionIdempotent(value: real, precision: nat)
    ensures ToPrecision(ToPrecision(value, precision), precision) == ToPrecision(value, precision)
  {
    TruncateIdempotent(value, Pow10(precision));
  }

  /** `oldValue + Math.round((newValue - oldValue) / step) * step`: the
      requested value, reached from the old one in whole steps. */
  function ChangeWithStep(oldValue: real, newValue: real, step: real): real
    requires step != 0.0
  {
    oldValue + Round((newValue - oldValue) / step) as real * step
  }

  /** Asking for the current value changes nothing. */
  lemma ChangeWithStepStays(value: real, step: real)
    requires step != 0.0
    ensures ChangeWithStep(value, value, step) == value
  {
    assert (value - value) / step == 0.0;
  }

  /** The value moves by a whole number of steps, and lands within half a step
      of the requested value. */
  lemma ChangeWithStepSpec(oldValue: real, newValue: real, step: real)
    requires step != 0.0
    ensures IsInteger((ChangeWithStep(oldValue, newValue, step) - oldValue) / step)
    ensures Abs(ChangeWithStep(oldValue, newValue, step) - newValue) <= Abs(step) / 2.0
  {
    var d := (newValue - oldValue) / step;
    var k := Round(d);
    var r := ChangeWithStep(oldValue, newValue, step);
    assert r == oldValue + k as real * step;
    StepFacts(oldValue, newValue, step, d, k, r);
  }

  /** The facts behind `ChangeWithStepSpec`, for a step count `k` within half
      a step of the quotient `d`, without the definitions of `Round` and
      `ChangeWithStep` in sight. */
  lemma StepFacts(o: real, n: real, step: real, d: real, k: int, r: real)
    requires step != 0.0 && d == (n - o) / step && r == o + k as real * step
    requires d - 0.5 < k as real <= d + 0.5
    ensures IsInteger((r - o) / step)
    ensures Abs(r - n) <= Abs(step) / 2.0
  {
    WholeSteps(r - o, k as real, step);
    StepBound(n - o, d, k as real, step, r - n);
  }

  /** A multiple `a * b` divided by `b` is `a`. */
  lemma WholeSteps(x: real, a: real, b: real)
    requires b != 0.0 && x == a * b
    ensures x / b == a
  {
    var q := x / b;
    DivMul(x, b);
    MulCancel(q, a, b);
  }

  lemma MulCancel(q: real, a: real, b: real)
    requires b != 0.0 && q * b == a * b
    ensures q == a
  {
    assert (q - a) * b == q * b - a * b;
  }

  /** With `d = x / step` and `k` within a half of `d`, `k * step` is within
      half a step of `x`; `err` is the difference `k * step - x`. */
  lemma StepBound(x: real, d: real, k: real, step: real, err: real)
    requires step != 0.0 && d == x / step && -0.5 <= k - d <= 0.5
    requires err == k * step - x
    ensures Abs(err) <= Abs(step) / 2.0
  {
    DivMul(x, step);
    var e := k - d;
    assert err == e * step by {
      assert e * step == k * step - d * step;
    }
    AbsMul(e, step);
    assert Abs(err) == Abs(e) * Abs(step);
    MulLe(Abs(e), 0.5, Abs(step));
    assert Abs(e) * Abs(step) <= 0.5 * Abs(step);
    assert 0.5 * Abs(step) == Abs(step) / 2.0;
  }

  lemma AbsMul(a: real, b: real)
    ensures Abs(a * b) == Abs(a) * Abs(b)
  {
  }

  lemma MulLe(a: real, b: real, c: real)
    requires 0.0 <= a <= b && c >= 0.0
    ensures a * c <= b * c
  {
  }

  /** A value already a whole number of steps away is reached exactly; in
      particular re-applying the step to a stepped value is stable. */
  lemma ChangeWithStepExact(oldValue: real, k: int, step: real)
    requires step != 0.0
    ensures ChangeWithStep(oldValue, oldValue + k as real * step, step) == oldValue + k as real * step
  {
    var target := oldValue + k as real * step;
    WholeSteps(target - oldValue, k as real, step);
    assert Round(k as real) == k;
  }

  /** The worked example of the step function: 0.2 towards 0.234 in steps of
      0.01 gives 0.23. */
  lemma ChangeWithStepExample()
    ensures ChangeWithStep(0.2, 0.234, 0.01) == 0.23
  {
    assert (0.234 - 0.2) / 0.01 == 3.4;
    assert Round(3.4) == 3;
  }

  // ---------------------------------------------------------------------------
  // The same helpers on JavaScript numbers

  /** `clamp` on a number that may be NaN or infinite: `Math.max` and
      `Math.min` propagate NaN, and the infinities land on the bounds. */
  function ClampN(n: Number, min: real, max: real): (r: Number)
    ensures r.NaN? <==> n.NaN?
    ensures !n.NaN? && min <= max ==> r.Fin? && min <= r.v <= max
    ensures n.Fin? ==> r == Fin(Clamp(n.v, min, max))
  {
    match n
    case Fin(x) => Fin(Clamp(x, min, max))
    case NaN => NaN
    case Inf(up) => if up then Fin(max) else Fin(Min(min, max))
  }

  /** `toPrecision` on a number: NaN and the infinities pass through. */
  function ToPrecisionN(n: Number, precision: nat): (r: Number)
    ensures n.Fin? <==> r.Fin?
    ensures n.Fin? ==> r.v <= n.v && (n.v - r.v) * Pow10(precision) < 1.0
    ensures !n.Fin? ==> r == n
  {
    if n.Fin? then Fin(ToPrecision(n.v, precision)) else n
  }

  /** `changeWithStep` on numbers: an infinite old value gives NaN (the
      infinity minus itself), an infinite request gives that infinity. */
  function ChangeWithStepN(oldValue: Number, newValue: Number, step: real): (r: Number)
    requires step != 0.0
    ensures r.Fin? <==> oldValue.Fin? && newValue.Fin?
    ensures r.NaN? <==> !oldValue.Fin? || newValue.NaN?
  {
    match (oldValue, newValue)
    case (Fin(o), Fin(v)) => Fin(ChangeWithStep(o, v, step))
    case (Fin(_), Inf(up)) => Inf(up)
    case _ => NaN
  }
}
