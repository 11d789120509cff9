/**
  JavaScript number values as the arithmetic of `calculateExpression` needs
  them: exact reals for the finite values, plus the signed zero, the two
  infinities and NaN, combined by the special-value rules of IEEE 754 that
  JavaScript follows. Rounding of finite results to double precision, and
  overflow, are not modelled: finite arithmetic is exact.
*/
module JsNumber {

  /** `Finite(0.0)` is +0; the negative zero is its own value. */
  datatype Num = Finite(v: real) | NegZero | PosInf | NegInf | NaN

  /** What `!isNaN(x) && isFinite(x)` accepts. */
  predicate IsFinite(x: Num) { x.Finite? || x.NegZero? }

  predicate IsZero(x: Num) { x == Finite(0.0) || x.NegZero? }

  predicate IsInfinite(x: Num) { x.PosInf? || x.NegInf? }

  /** The real value of a finite number; both zeros are 0. */
  function Value(x: Num): real
    requires IsFinite(x)
  {
    if x.NegZero? then 0.0 else x.v
  }

  /** The sign bit. */
  predicate SignBit(x: Num) {
    x.NegZero? || x.NegInf? || (x.Finite? && x.v < 0.0)
  }

  /** A zero or an infinity with the given sign bit. */
  function SignedZero(negative: bool): Num { if negative then NegZero else Finite(0.0) }

  function SignedInf(negative: bool): Num { if negative then NegInf else PosInf }

  /** Unary `-`. */
  function Negate(x: Num): (r: Num)
    ensures IsFinite(x) ==> IsFinite(r) && Value(r) == -Value(x)
    ensures x.NaN? <==> r.NaN?
    ensures IsInfinite(x) <==> IsInfinite(r)
  {
    match x
    case Finite(v) => if v == 0.0 then NegZero else Finite(-v)
    case NegZero => Finite(0.0)
    case PosInf => NegInf
    case NegInf => PosInf
    case NaN => NaN
  }

  /** `+` on numbers. */
  function Add(a: Num, b: Num): (r: Num)
    ensures IsFinite(a) && IsFinite(b) ==> IsFinite(r) && Value(r) == Value(a) + Value(b)
    ensures (a.NaN? || b.NaN?) ==> r.NaN?
    ensures IsInfinite(a) && !b.NaN? && b != Negate(a) ==> r == a
    ensures IsInfinite(a) && b == Negate(a) ==> r.NaN?
  {
    if a.NaN? || b.NaN? then NaN
    else if IsInfinite(a) && IsInfinite(b) then (if a == b then a else NaN)
    else if IsInfinite(a) then a
    else if IsInfinite(b) then b
    else if a.NegZero? && b.NegZero? then NegZero
    else if IsZero(a) && IsZero(b) then Finite(0.0)
    else if IsZero(a) then b
    else if IsZero(b) then a
    else Finite(a.v + b.v)
  }

  /** `-` on numbers: adding the negation. */
  function Sub(a: Num, b: Num): (r: Num)
    ensures IsFinite(a) && IsFinite(b) ==> IsFinite(r) && Value(r) == Value(a) - Value(b)
  {
    Add(a, Negate(b))
  }

  /** `*` on numbers. */
  function Mul(a: Num, b: Num): (r: Num)
    ensures IsFinite(a) && IsFinite(b) ==> IsFinite(r) && Value(r) == Value(a) * Value(b)
    ensures (IsInfinite(a) && IsZero(b)) || (IsZero(a) && IsInfinite(b)) ==> r.NaN?
    ensures !r.NaN? ==> SignBit(r) == (SignBit(a) != SignBit(b))
  {
    var negative := SignBit(a) != SignBit(b);
    if a.NaN? || b.NaN? then NaN
    else if (IsInfinite(a) && IsZero(b)) || (IsZero(a) && IsInfinite(b)) then NaN
    else if IsInfinite(a) || IsInfinite(b) then SignedInf(negative)
    else if IsZero(a) || IsZero(b) then SignedZero(negative)
    else Finite(a.v * b.v)
  }

  /** `/` on numbers. */
  function Div(a: Num, b: Num): (r: Num)
    ensures IsFinite(a) && IsFinite(b) && !IsZero(b) ==> IsFinite(r) && Value(r) == Value(a) / Value(b)
    ensures IsZero(b) ==> !IsFinite(r)
    ensures IsFinite(a) && IsInfinite(b) ==> IsZero(r)
    ensures !r.NaN? ==> SignBit(r) == (SignBit(a) != SignBit(b))
  {
    var negative := SignBit(a) != SignBit(b);
    if a.NaN? || b.NaN? then NaN
    else if (IsInfinite(a) && IsInfinite(b)) || (IsZero(a) && IsZero(b)) then NaN
    else if IsInfinite(a) then SignedInf(negative)
    else if IsInfinite(b) then SignedZero(negative)
    else if IsZero(b) then SignedInf(negative)
    else if IsZero(a) then SignedZero(negative)
    else Finite(a.v / b.v)
  }

  /** `x / 0` is never a usable answer, but `y / (x / 0)` is a zero again:
      the evaluation cannot stop at the first division by zero. */
  lemma DivisionByInfinity(x: Num, y: Num)
    requires IsFinite(x) && !IsZero(x) && IsFinite(y)
    ensures IsInfinite(Div(x, Finite(0.0)))
    ensures IsZero(Div(y, Div(x, Finite(0.0))))
  {
  }

  /** `Math.round(x * 100) / 100` on a finite value: the nearest multiple of
      0.01, ties going up. */
  function Round2(x: real): (r: real)
    ensures x - 0.005 < r <= x + 0.005
  {
    ((x * 100.0 + 0.5).Floor as real) / 100.0
  }

  /** The result of `Round2` is a whole number of hundredths, and it is the
      greatest one not above `x + 0.005`. */
  lemma Round2Nearest(x: real, k: int)
    ensures (Round2(x) * 100.0).Floor as real == Round2(x) * 100.0
    ensures (k as real) / 100.0 <= x + 0.005 ==> (k as real) / 100.0 <= Round2(x)
  {
    var f := (x * 100.0 + 0.5).Floor;
    assert Round2(x) * 100.0 == f as real;
    if (k as real) / 100.0 <= x + 0.005 {
      assert k as real <= x * 100.0 + 0.5;
      assert k <= f;
    }
  }
}
