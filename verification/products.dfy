/** Products and quotients of the exact fractions aleatory.js computes with
    (`mul` and `div` of Fraction.js), on the reals. */
module Products {

  /** `x.mul(y)`: the product of two probabilities. Products are written
      through this one function, so that sums can be multiplied out term by
      term with the two distribution laws below. */
  function Times(x: real, y: real): real
  {
    x * y
  }

  lemma TimesAddLeft(a: real, b: real, c: real)
    ensures Times(a + b, c) == Times(a, c) + Times(b, c)
  {
  }

  lemma TimesAddRight(c: real, a: real, b: real)
    ensures Times(c, a + b) == Times(c, a) + Times(c, b)
  {
  }

  lemma TimesAssociative(a: real, b: real, c: real)
    ensures Times(a, Times(b, c)) == Times(Times(a, b), c)
  {
  }

  lemma TimesFacts(x: real, y: real)
    ensures Times(x, 0.0) == 0.0 && Times(0.0, y) == 0.0
    ensures Times(x, 1.0) == x && Times(1.0, y) == y
    ensures x > 0.0 && y > 0.0 ==> Times(x, y) > 0.0
  {
  }

  /** `x.div(total)`: a probability divided by a non-zero total. */
  function Ratio(x: real, total: real): real
    requires total != 0.0
  {
    x / total
  }

  lemma RatioAdd(a: real, b: real, total: real)
    requires total != 0.0
    ensures Ratio(a + b, total) == Ratio(a, total) + Ratio(b, total)
  {
  }

  /** Multiplying by `1 / n` is dividing by `n`. */
  lemma TimesReciprocal(x: real, n: real)
    requires n != 0.0
    ensures Times(x, Ratio(1.0, n)) == Ratio(x, n)
  {
  }

  lemma RatioFacts(x: real, total: real)
    requires total != 0.0
    ensures Ratio(0.0, total) == 0.0 && Ratio(total, total) == 1.0
    ensures x > 0.0 && total > 0.0 ==> Ratio(x, total) > 0.0
  {
  }
}
