/** A term `coefficient * x^degree` and the product of two terms. */
module Terms {

  datatype Term = Term(degree: nat, coefficient: int)

  /** The multiplicative identity `1 = 1 * x^0`, the seed of the parser's product fold. */
  const One: Term := Term(0, 1)

  function Multiply(a: Term, b: Term): Term {
    Term(a.degree + b.degree, a.coefficient * b.coefficient)
  }
}
