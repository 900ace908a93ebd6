/** The `f32` values of the result log.

    A value is finite, an infinity of either sign, or NaN. Finite values carry an
    exact real: rounding to 24 bits and overflow to infinity are not modelled.
    A zero divisor is treated as positive zero (the sign of zero is not modelled).
    The sign of zero never changes whether a result is finite, and finiteness is
    all that the result log ever tests; overflow would change it, and is not
    modelled. */
module Float32 {

  datatype F32 = Finite(value: real) | Infinity(negative: bool) | NaN

  predicate IsFinite(x: F32) { x.Finite? }

  function FromNat(n: nat): (r: F32)
    ensures IsFinite(r) && r.value == n as real
  {
    Finite(n as real)
  }

  function Neg(a: F32): (r: F32)
    ensures IsFinite(r) <==> IsFinite(a)
    ensures r.Finite? ==> r.value == -a.value
  {
    if a.Finite? then (if a.value == 0.0 then a else Finite(-a.value))
    else if a.Infinity? then Infinity(!a.negative)
    else a
  }

  function Add(a: F32, b: F32): (r: F32)
    ensures IsFinite(r) <==> IsFinite(a) && IsFinite(b)
    ensures r.Finite? ==> r.value == a.value + b.value
    ensures a.NaN? || b.NaN? ==> r.NaN?
  {
    if a.Finite? && b.Finite? then
      (if b.value == 0.0 then a else if a.value == 0.0 then b else Finite(a.value + b.value))
    else if a.NaN? then a
    else if b.NaN? then b
    else if a.Infinity? && b.Infinity? && a.negative != b.negative then NaN
    else if a.Infinity? then a
    else b
  }

  function Sub(a: F32, b: F32): (r: F32)
    ensures IsFinite(r) <==> IsFinite(a) && IsFinite(b)
    ensures r.Finite? ==> r.value == a.value - b.value
  {
    Add(a, Neg(b))
  }

  function Mul(a: F32, b: F32): (r: F32)
    ensures IsFinite(r) <==> IsFinite(a) && IsFinite(b)
    ensures r.Finite? ==> r.value == a.value * b.value
  {
    if a.Finite? && b.Finite? then
      (if a.value == 0.0 then a else if b.value == 0.0 then b else Finite(a.value * b.value))
    else if a.NaN? then a
    else if b.NaN? then b
    else if (a.Finite? && a.value == 0.0) || (b.Finite? && b.value == 0.0) then NaN
    else Infinity(Negative(a) != Negative(b))
  }

  /** The sign of a non-NaN value other than zero. */
  predicate Negative(a: F32)
  {
    if a.Finite? then a.value < 0.0 else a.Infinity? && a.negative
  }

  /** IEEE division: a finite numerator over an infinity is zero, a nonzero
      finite numerator over zero is an infinity and 0/0 is NaN. */
  function Div(a: F32, b: F32): (r: F32)
    ensures IsFinite(r) <==> IsFinite(a) && (b.Infinity? || (b.Finite? && b.value != 0.0))
    ensures r.Finite? && b.Finite? ==> r.value == a.value / b.value
    ensures r.Finite? && b.Infinity? ==> r.value == 0.0
  {
    if a.Finite? && b.Finite? && b.value != 0.0 then
      (if a.value == 0.0 then a else Finite(a.value / b.value))
    else if a.NaN? then a
    else if b.NaN? then b
    else if a.Finite? && b.Infinity? then Finite(0.0)
    else if a.Infinity? && b.Infinity? then NaN
    else if a.Finite? && a.value == 0.0 then NaN
    else Infinity(Negative(a) != Negative(b))
  }

  /** Division by the literal 2.0. */
  function Half(a: F32): (r: F32)
    ensures IsFinite(r) <==> IsFinite(a)
    ensures r.Finite? ==> r.value == a.value / 2.0
  {
    match a
    case Finite(x) => if x == 0.0 then a else Finite(x / 2.0)
    case _ => a
  }
}
