/** The Python floats the analyzer stores: coverage values and GC
    percentages. Only what the analyzer observes is kept: NaN, and finite
    values as exact reals. */
module Numbers {

  datatype Number = NaN | Num(value: real)

  /** IEEE equality, as Python's `==` on floats: NaN equals nothing, itself
      included. */
  predicate FloatEq(a: Number, b: Number) {
    a.Num? && b.Num? && a.value == b.value
  }

  /** `isNaN(num)`, written as the source writes it: `num != num`. */
  function IsNaN(num: Number): (r: bool)
    ensures r <==> num.NaN?
  {
    !FloatEq(num, num)
  }

  /** Python's ordered comparisons of a float with a number: all of them are
      false when the float is NaN. */
  predicate Greater(a: Number, c: real) { a.Num? && a.value > c }

  predicate Less(a: Number, c: real) { a.Num? && a.value < c }

  /** The chained comparison `lo <= a <= hi`. */
  predicate Between(lo: real, a: Number, hi: real) { a.Num? && lo <= a.value <= hi }
}
