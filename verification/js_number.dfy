/** JavaScript's `number` as far as the pages' arithmetic needs it: a finite
    value (taken as an exact real, so floating-point rounding is not
    modelled), `NaN`, or one of the two infinities. Zero carries no sign. */
module JsNumber {

  datatype Num = Finite(v: real) | NaN | PosInf | NegInf

  /** -1, 0 or 1; `NaN` has no sign and is given 0. */
  function Sign(a: Num): int
  {
    match a
    case Finite(x) => if x < 0.0 then -1 else if x == 0.0 then 0 else 1
    case PosInf => 1
    case NegInf => -1
    case NaN => 0
  }

  function Inf(sign: int): Num
  {
    if sign < 0 then NegInf else PosInf
  }

  function Neg(a: Num): Num
  {
    match a
    case Finite(x) => Finite(-x)
    case PosInf => NegInf
    case NegInf => PosInf
    case NaN => NaN
  }

  /** `a + b` */
  function Add(a: Num, b: Num): (r: Num)
    ensures r.NaN? <==> a.NaN? || b.NaN? || (a.PosInf? && b.NegInf?) || (a.NegInf? && b.PosInf?)
  {
    if a.NaN? || b.NaN? then NaN
    else if a.Finite? && b.Finite? then Finite(a.v + b.v)
    else if a.Finite? then b
    else if b.Finite? then a
    else if a == b then a
    else NaN
  }

  /** `a - b` */
  function Sub(a: Num, b: Num): Num
  {
    Add(a, Neg(b))
  }

  /** `a * b`: an infinity times zero is `NaN`. */
  function Mul(a: Num, b: Num): (r: Num)
    ensures a.Finite? && b.Finite? ==> r.Finite?
    ensures (a.NaN? || b.NaN?) ==> r.NaN?
  {
    if a.NaN? || b.NaN? then NaN
    else if a.Finite? && b.Finite? then Finite(a.v * b.v)
    else if Sign(a) == 0 || Sign(b) == 0 then NaN
    else Inf(Sign(a) * Sign(b))
  }

  /** `a / b`: a non-zero value over zero is an infinity, `0 / 0` and an
      infinity over an infinity are `NaN`, a finite value over an infinity
      is zero. */
  function Div(a: Num, b: Num): (r: Num)
    ensures a.Finite? && b.Finite? ==> (r.Finite? <==> b.v != 0.0)
    ensures (a.NaN? || b.NaN?) ==> r.NaN?
  {
    if a.NaN? || b.NaN? then NaN
    else if a.Finite? && b.Finite? then
      if b.v != 0.0 then Finite(a.v / b.v)
      else if a.v == 0.0 then NaN
      else Inf(Sign(a))
    else if !a.Finite? && !b.Finite? then NaN
    else if !a.Finite? then Inf(Sign(a) * (if Sign(b) < 0 then -1 else 1))
    else Finite(0.0)
  }

  /** `Math.round`: the nearest integer, halves rounded up; `NaN` and the
      infinities are returned as they are. */
  function Round(a: Num): (r: Num)
    ensures a.Finite? ==> r.Finite? && IsInteger(r)
    ensures a.Finite? ==> a.v - 0.5 < r.v <= a.v + 0.5
    ensures !a.Finite? ==> r == a
  {
    if a.Finite? then Finite((a.v + 0.5).Floor as real) else a
  }

  /** `a < b`; every comparison with `NaN` is false. */
  predicate Less(a: Num, b: Num)
  {
    !a.NaN? && !b.NaN? &&
    match (a, b)
    case (Finite(x), Finite(y)) => x < y
    case (NegInf, _) => !b.NegInf?
    case (_, PosInf) => !a.PosInf?
    case _ => false
  }

  /** `a >= b`; false when either side is `NaN`. */
  predicate AtLeast(a: Num, b: Num)
  {
    !a.NaN? && !b.NaN? && !Less(a, b)
  }

  predicate IsInteger(a: Num)
  {
    a.Finite? && a.v == a.v.Floor as real
  }

  /** An integer count (a byte size, a pixel count) as a number. */
  function FromInt(n: int): (r: Num)
    ensures IsInteger(r) && r.v == n as real
  {
    Finite(n as real)
  }

  /** Rounding an integral value gives it back. */
  lemma RoundInteger(a: Num)
    requires IsInteger(a)
    ensures Round(a) == a
  {
    var n := a.v.Floor;
    var m := (a.v + 0.5).Floor;
    assert m as real <= n as real + 0.5;
    assert m < n + 1;
    assert n as real <= a.v + 0.5;
    assert n <= m;
  }
}
