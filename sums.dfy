/** Finite sums of complex terms, and the sign `(-1)^k` of the cofactor
    expansion, with the algebra the determinant proofs need. */
module Sums {
  import opened Complexes

  /** `c` when `k` is even and `-c` when `k` is odd. */
  function Sign(k: nat, c: Complex): Complex {
    if k % 2 == 0 then c else Neg(c)
  }

  /** `f(0) + f(1) + ... + f(n - 1)`, added from the left. */
  function Sum(n: nat, f: nat -> Complex): Complex {
    if n == 0 then Zero else Add(Sum(n - 1, f), f(n - 1))
  }

  /** The terms of `f` from index 1 on. */
  function Shift(f: nat -> Complex): nat -> Complex {
    (i: nat) => f(i + 1)
  }

  /** Termwise sum of two sequences of terms. */
  function AddTerms(f: nat -> Complex, g: nat -> Complex): nat -> Complex {
    (i: nat) => Add(f(i), g(i))
  }

  /** Every term of `f` multiplied by `c` and signed by `s`. */
  function ScaleTerms(f: nat -> Complex, c: Complex, s: nat): nat -> Complex {
    (i: nat) => Sign(s, Mul(f(i), c))
  }

  /** Row `i` and column `k` of a doubly indexed family of terms. */
  function Row(g: (nat, nat) -> Complex, i: nat): nat -> Complex {
    (k: nat) => g(i, k)
  }

  function Col(g: (nat, nat) -> Complex, k: nat): nat -> Complex {
    (i: nat) => g(i, k)
  }

  /** The sums of the first `m` terms of every row, and of the first `n`
      terms of every column. */
  function RowSums(g: (nat, nat) -> Complex, m: nat): nat -> Complex {
    (i: nat) => Sum(m, Row(g, i))
  }

  function ColSums(g: (nat, nat) -> Complex, n: nat): nat -> Complex {
    (k: nat) => Sum(n, Col(g, k))
  }

  lemma SignSign(s: nat, t: nat, c: Complex)
    ensures Sign(s, Sign(t, c)) == Sign(s + t, c)
  {
  }

  lemma SignMul(s: nat, x: Complex, y: Complex)
    ensures Mul(Sign(s, x), y) == Sign(s, Mul(x, y))
  {
    if s % 2 == 1 {
      MulNegLeft(x, y);
    }
  }

  lemma SignAdd(s: nat, x: Complex, y: Complex)
    ensures Sign(s, Add(x, y)) == Add(Sign(s, x), Sign(s, y))
  {
  }

  /** Sums depend only on the terms they add. */
  lemma {:induction false} SumExt(n: nat, f: nat -> Complex, g: nat -> Complex)
    requires forall i: nat :: i < n ==> f(i) == g(i)
    ensures Sum(n, f) == Sum(n, g)
  {
    if n > 0 {
      SumExt(n - 1, f, g);
    }
  }

  /** A sum of zeros is zero. */
  lemma {:induction false} SumZero(n: nat, f: nat -> Complex)
    requires forall i: nat :: i < n ==> f(i) == Zero
    ensures Sum(n, f) == Zero
  {
    if n > 0 {
      SumZero(n - 1, f);
    }
  }

  /** Splitting off the first term. */
  lemma {:induction false} SumShift(n: nat, f: nat -> Complex)
    ensures Sum(n + 1, f) == Add(f(0), Sum(n, Shift(f)))
  {
    if n > 0 {
      SumShift(n - 1, f);
      AddAssoc(f(0), Sum(n - 1, Shift(f)), f(n));
    }
  }

  /** Adding two sums termwise. */
  lemma {:induction false} SumAdd(n: nat, f: nat -> Complex, g: nat -> Complex)
    ensures Add(Sum(n, f), Sum(n, g)) == Sum(n, AddTerms(f, g))
  {
    if n > 0 {
      SumAdd(n - 1, f, g);
      var a, b, x, y := Sum(n - 1, f), Sum(n - 1, g), f(n - 1), g(n - 1);
      assert Add(Add(a, x), Add(b, y)) == Add(Add(a, b), Add(x, y));
    }
  }

  /** A signed multiple of a sum is the sum of the signed multiples. */
  lemma {:induction false} SumScale(n: nat, f: nat -> Complex, c: Complex, s: nat)
    ensures Sign(s, Mul(Sum(n, f), c)) == Sum(n, ScaleTerms(f, c, s))
  {
    if n == 0 {
      MulZeroLeft(c);
    } else {
      SumScale(n - 1, f, c, s);
      MulAddLeft(Sum(n - 1, f), f(n - 1), c);
      SignAdd(s, Mul(Sum(n - 1, f), c), Mul(f(n - 1), c));
    }
  }

  /** The sum of the row sums of a rectangle of terms is the sum of its
      column sums. */
  lemma {:induction false} SumSwap(n: nat, m: nat, g: (nat, nat) -> Complex)
    ensures Sum(n, RowSums(g, m)) == Sum(m, ColSums(g, n))
  {
    if n == 0 {
      SumZero(m, ColSums(g, 0));
    } else {
      SumSwap(n - 1, m, g);
      SumAdd(m, ColSums(g, n - 1), Row(g, n - 1));
      SumExt(m, AddTerms(ColSums(g, n - 1), Row(g, n - 1)), ColSums(g, n));
    }
  }
}
