/** The JavaScript numbers this program handles.

    Every number the table code computes is either NaN or an exact value:
    `parseInt` yields NaN or an integer, sums and differences of those stay
    integers unless NaN is involved, and only the average is a fraction.
    IEEE-754 rounding is not modelled; values are exact. */
module Numbers {

  /** A JavaScript number that is either NaN or the exact value `value`. */
  datatype NaNOr<+T> = NaN | Num(value: T)

  /** `a + b` on numbers: NaN absorbs the other operand. */
  function Plus(a: NaNOr<int>, b: NaNOr<int>): (r: NaNOr<int>)
    ensures r.NaN? <==> a.NaN? || b.NaN?
    ensures r.Num? ==> r.value == a.value + b.value
  {
    if a.Num? && b.Num? then Num(a.value + b.value) else NaN
  }

  /** The laws of `+` a running sum relies on: it is commutative and
      associative, 0 is its unit and NaN absorbs everything, so a sum
      poisoned once stays NaN whatever order the terms come in. */
  lemma PlusLaws(a: NaNOr<int>, b: NaNOr<int>, c: NaNOr<int>)
    ensures Plus(a, b) == Plus(b, a)
    ensures Plus(Plus(a, b), c) == Plus(a, Plus(b, c))
    ensures Plus(a, Num(0)) == a
    ensures Plus(a, NaN) == NaN
  {
  }

  /** `a - b` on integer-valued numbers: NaN absorbs the other operand. */
  function Minus(a: NaNOr<int>, b: NaNOr<int>): NaNOr<int>
  {
    if a.Num? && b.Num? then Num(a.value - b.value) else NaN
  }

  /** `a - b` on real-valued numbers: NaN absorbs the other operand. */
  function MinusReal(a: NaNOr<real>, b: NaNOr<real>): NaNOr<real>
  {
    if a.Num? && b.Num? then Num(a.value - b.value) else NaN
  }

  /** Unary minus; `-NaN` is NaN. */
  function Negate(a: NaNOr<int>): NaNOr<int>
  {
    if a.Num? then Num(-a.value) else NaN
  }

  /** Unary minus on real-valued numbers. */
  function NegateReal(a: NaNOr<real>): NaNOr<real>
  {
    if a.Num? then Num(-a.value) else NaN
  }

  /** `sum / count` for a positive count: NaN stays NaN, otherwise the
      quotient is the number that multiplied by `count` gives back `sum`. */
  function Divide(sum: NaNOr<int>, count: nat): (q: NaNOr<real>)
    requires count >= 1
    ensures q.NaN? <==> sum.NaN?
    ensures q.Num? ==> q.value * count as real == sum.value as real
  {
    if sum.Num? then Num(sum.value as real / count as real) else NaN
  }
}
