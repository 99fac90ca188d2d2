/** Complex numbers with exact real components.

    The matrix engine only ever adds, subtracts and multiplies its entries and
    builds new ones from integers, so that is all this module provides. The
    components are mathematical reals: there is no rounding. */
module Complexes {

  datatype Complex = Complex(re: real, im: real)

  /** The value the engine builds with `new Complex(0, 0)`. */
  const Zero: Complex := Complex(0.0, 0.0)

  /** The value the engine builds with `new Complex(number, 0)`. */
  function FromInt(number: int): (c: Complex)
    ensures c.re == number as real && c.im == 0.0
  {
    Complex(number as real, 0.0)
  }

  function Add(a: Complex, b: Complex): Complex {
    Complex(a.re + b.re, a.im + b.im)
  }

  function Sub(a: Complex, b: Complex): Complex {
    Complex(a.re - b.re, a.im - b.im)
  }

  function Mul(a: Complex, b: Complex): Complex {
    Complex(a.re * b.re - a.im * b.im, a.re * b.im + a.im * b.re)
  }

  function Neg(a: Complex): Complex {
    Complex(-a.re, -a.im)
  }

  /** Integers embed into the complex numbers: sums and products of
      integers agree with sums and products of their images. */
  lemma AddFromInt(x: int, y: int)
    ensures Add(FromInt(x), FromInt(y)) == FromInt(x + y)
  {
  }

  lemma MulFromInt(x: int, y: int)
    ensures Mul(FromInt(x), FromInt(y)) == FromInt(x * y)
  {
  }

  // The ring laws the sum, determinant and matrix-law proofs call on.

  lemma AddComm(a: Complex, b: Complex)
    ensures Add(a, b) == Add(b, a)
  {
  }

  lemma AddAssoc(a: Complex, b: Complex, c: Complex)
    ensures Add(Add(a, b), c) == Add(a, Add(b, c))
  {
  }

  lemma MulComm(a: Complex, b: Complex)
    ensures Mul(a, b) == Mul(b, a)
  {
  }

  lemma MulAssoc(a: Complex, b: Complex, c: Complex)
    ensures Mul(Mul(a, b), c) == Mul(a, Mul(b, c))
  {
    assert Mul(Mul(a, b), c).re == Mul(a, Mul(b, c)).re;
    assert Mul(Mul(a, b), c).im == Mul(a, Mul(b, c)).im;
  }

  lemma MulAddLeft(a: Complex, b: Complex, c: Complex)
    ensures Mul(Add(a, b), c) == Add(Mul(a, c), Mul(b, c))
  {
  }

  lemma MulNegLeft(a: Complex, b: Complex)
    ensures Mul(Neg(a), b) == Neg(Mul(a, b))
  {
  }

  lemma MulZeroLeft(a: Complex)
    ensures Mul(Zero, a) == Zero
  {
  }

  lemma MulZeroRight(a: Complex)
    ensures Mul(a, Zero) == Zero
  {
  }

  lemma MulOneRight(a: Complex)
    ensures Mul(a, FromInt(1)) == a
  {
  }
}
