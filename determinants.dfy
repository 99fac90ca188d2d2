/** The determinant of `findDeterminant` does not change under
    transposition.

    The engine expands along row 0 only. The proof first shows that
    expanding along column 0 gives the same value. For sizes of at least 3,
    both expansions are unfolded one level further into the same rectangle
    of terms, summed by rows on one side and by columns on the other. The
    transposition law then follows by induction, since the row-0 minors of
    the transpose are the transposes of the column-0 minors. */
module DeterminantLaws {
  import opened Complexes
  import opened Outcomes
  import opened Grids
  import opened Sums
  import opened MatrixLaws

  /** Term `i` of the expansion along row 0, as the engine adds it. */
  function RowTerm(a: Grid, i: nat): Complex
    requires IsSquare(a) && Rows(a) >= 2 && i < Rows(a)
  {
    Sign(i, Mul(Det(Minor(a, 0, i)), a[0][i]))
  }

  /** Term `k` of the expansion along column 0. */
  function ColTerm(a: Grid, k: nat): Complex
    requires IsSquare(a) && Rows(a) >= 2 && k < Rows(a)
  {
    Sign(k, Mul(Det(Minor(a, k, 0)), a[k][0]))
  }

  /** Term `(p, q)` of the two-level expansion: row 0 and column `p + 1`
      are deleted, then row `q + 1` and column 0. */
  function Term(a: Grid, p: nat, q: nat): Complex
    requires IsSquare(a) && Rows(a) >= 3 && p < Rows(a) - 1 && q < Rows(a) - 1
  {
    Sign(p + q + 1, Mul(Mul(Det(Minor(Minor(a, 0, p + 1), q, 0)), a[q + 1][0]), a[0][p + 1]))
  }

  function RowTerms(a: Grid): nat -> Complex
    requires IsSquare(a) && Rows(a) >= 2
  {
    (i: nat) => if i < Rows(a) then RowTerm(a, i) else Zero
  }

  function ColTerms(a: Grid): nat -> Complex
    requires IsSquare(a) && Rows(a) >= 2
  {
    (k: nat) => if k < Rows(a) then ColTerm(a, k) else Zero
  }

  function Terms(a: Grid): (nat, nat) -> Complex
    requires IsSquare(a) && Rows(a) >= 3
  {
    (p: nat, q: nat) => if p < Rows(a) - 1 && q < Rows(a) - 1 then Term(a, p, q) else Zero
  }

  /** The accumulator of `findDeterminant` is the sum of the row terms
      seen so far. */
  lemma {:induction false} ExpandIsSum(a: Grid, count: nat)
    requires IsSquare(a) && Rows(a) >= 2 && count <= Rows(a)
    ensures Expand(a, count) == Sum(count, RowTerms(a))
  {
    if count > 0 {
      var i := count - 1;
      ExpandIsSum(a, i);
      var t := Mul(Det(Minor(a, 0, i)), a[0][i]);
      assert RowTerms(a)(i) == RowTerm(a, i) == Sign(i, t);
      assert Sum(count, RowTerms(a)) == Add(Sum(i, RowTerms(a)), RowTerms(a)(i));
      assert Expand(a, count) == if i % 2 == 0 then Add(Expand(a, i), t) else Sub(Expand(a, i), t);
    }
  }

  lemma RowExpansion(a: Grid)
    requires IsSquare(a) && Rows(a) >= 2
    ensures Det(a) == Sum(Rows(a), RowTerms(a))
  {
    ExpandIsSum(a, Rows(a));
  }

  /** Cell `(i, j)` of both orders of deleting row 0 and column `p + 1`,
      and row `q + 1` and column 0. */
  lemma MinorsCommuteCell(a: Grid, p: nat, q: nat, i: nat, j: nat)
    requires IsSquare(a) && Rows(a) >= 3 && p < Rows(a) - 1 && q < Rows(a) - 1
    requires i < Rows(a) - 2 && j < Rows(a) - 2
    ensures Minor(Minor(a, q + 1, 0), 0, p)[i][j] == Minor(Minor(a, 0, p + 1), q, 0)[i][j]
  {
    var c, d := Minor(a, q + 1, 0), Minor(a, 0, p + 1);
    var si, sj := Skip(i, q), Skip(j, p);
    assert Skip(i, 0) == i + 1 && Skip(sj, 0) == sj + 1;
    assert Skip(i + 1, q + 1) == si + 1 && Skip(j + 1, p + 1) == sj + 1;
    assert Minor(c, 0, p)[i][j] == c[i + 1][sj];
    assert c[i + 1][sj] == a[si + 1][sj + 1];
    assert Skip(j, 0) == j + 1 && Skip(si, 0) == si + 1;
    assert Minor(d, q, 0)[i][j] == d[si][j + 1];
    assert d[si][j + 1] == a[si + 1][sj + 1];
  }

  /** Deleting row 0 and column `p + 1`, then row `q` and column 0, deletes
      the same rows and columns as the other order. */
  lemma MinorsCommute(a: Grid, p: nat, q: nat)
    requires IsSquare(a) && Rows(a) >= 3 && p < Rows(a) - 1 && q < Rows(a) - 1
    ensures Minor(Minor(a, q + 1, 0), 0, p) == Minor(Minor(a, 0, p + 1), q, 0)
  {
    var x, y := Minor(Minor(a, q + 1, 0), 0, p), Minor(Minor(a, 0, p + 1), q, 0);
    forall i, j | 0 <= i < Rows(a) - 2 && 0 <= j < Rows(a) - 2
      ensures x[i][j] == y[i][j]
    {
      MinorsCommuteCell(a, p, q, i, j);
    }
    GridsEqual(x, y, Rows(a) - 2, Rows(a) - 2);
  }

  /** Reordering the last two factors of a product. */
  lemma MulSwapLast(d: Complex, x: Complex, y: Complex)
    ensures Mul(Mul(d, x), y) == Mul(Mul(d, y), x)
  {
    MulAssoc(d, x, y);
    MulComm(x, y);
    MulAssoc(d, y, x);
  }

  /** A signed multiple of a signed product is a product with the signs
      combined. */
  lemma SignedProduct(s: nat, t: nat, k: nat, d: Complex, y: Complex, x: Complex)
    requires k == s + t
    ensures Sign(s, Mul(Sign(t, Mul(d, y)), x)) == Sign(k, Mul(Mul(d, y), x))
  {
    SignMul(t, Mul(d, y), x);
    SignSign(s, t, Mul(Mul(d, y), x));
  }

  /** The same with the last two factors exchanged. */
  lemma SwappedProduct(s: nat, t: nat, k: nat, d: Complex, x: Complex, y: Complex)
    requires k == s + t
    ensures Sign(s, Mul(Sign(t, Mul(d, x)), y)) == Sign(k, Mul(Mul(d, y), x))
  {
    SignedProduct(s, t, k, d, x, y);
    MulSwapLast(d, x, y);
  }

  /** Term `q` of the column expansion of the minor of row 0 and column
      `p + 1`, scaled by the row term's entry and sign, is term `(p, q)` of
      the rectangle. */
  lemma RowTermPart(a: Grid, p: nat, q: nat)
    requires IsSquare(a) && Rows(a) >= 3 && p < Rows(a) - 1 && q < Rows(a) - 1
    ensures ScaleTerms(ColTerms(Minor(a, 0, p + 1)), a[0][p + 1], p + 1)(q) == Row(Terms(a), p)(q)
  {
    var b, x, y := Minor(a, 0, p + 1), a[0][p + 1], a[q + 1][0];
    var d := Det(Minor(b, q, 0));
    assert b[q][0] == y;
    assert ScaleTerms(ColTerms(b), x, p + 1)(q) == Sign(p + 1, Mul(Sign(q, Mul(d, y)), x));
    assert Row(Terms(a), p)(q) == Term(a, p, q) == Sign(p + q + 1, Mul(Mul(d, y), x));
    SignedProduct(p + 1, q, p + q + 1, d, y, x);
  }

  /** Row term `p + 1`, with the determinant of its minor expanded along
      column 0, is row `p` of the rectangle. */
  lemma RowTermAsSum(a: Grid, p: nat)
    requires IsSquare(a) && Rows(a) >= 3 && p < Rows(a) - 1
    requires Det(Minor(a, 0, p + 1)) == Sum(Rows(a) - 1, ColTerms(Minor(a, 0, p + 1)))
    ensures Shift(RowTerms(a))(p) == RowSums(Terms(a), Rows(a) - 1)(p)
  {
    var m, b, x := Rows(a) - 1, Minor(a, 0, p + 1), a[0][p + 1];
    assert Shift(RowTerms(a))(p) == RowTerm(a, p + 1) == Sign(p + 1, Mul(Det(b), x));
    assert RowSums(Terms(a), m)(p) == Sum(m, Row(Terms(a), p));
    SumScale(m, ColTerms(b), x, p + 1);
    forall q: nat | q < m
      ensures ScaleTerms(ColTerms(b), x, p + 1)(q) == Row(Terms(a), p)(q)
    {
      RowTermPart(a, p, q);
    }
    SumExt(m, ScaleTerms(ColTerms(b), x, p + 1), Row(Terms(a), p));
  }

  /** Term `p` of the row expansion of the minor of row `q + 1` and
      column 0, written with the minor taken in the other order. */
  lemma RowTermOfMinor(a: Grid, p: nat, q: nat)
    requires IsSquare(a) && Rows(a) >= 3 && p < Rows(a) - 1 && q < Rows(a) - 1
    ensures RowTerms(Minor(a, q + 1, 0))(p) == Sign(p, Mul(Det(Minor(Minor(a, 0, p + 1), q, 0)), a[0][p + 1]))
  {
    var c := Minor(a, q + 1, 0);
    MinorsCommute(a, p, q);
    assert c[0][p] == a[0][p + 1];
    assert RowTerms(c)(p) == RowTerm(c, p);
  }

  /** Term `p` of the row expansion of the minor of row `q + 1` and
      column 0, scaled by the column term's entry and sign, is term
      `(p, q)` of the rectangle. */
  lemma ColTermPart(a: Grid, p: nat, q: nat)
    requires IsSquare(a) && Rows(a) >= 3 && p < Rows(a) - 1 && q < Rows(a) - 1
    ensures ScaleTerms(RowTerms(Minor(a, q + 1, 0)), a[q + 1][0], q + 1)(p) == Col(Terms(a), q)(p)
  {
    var c, x, y := Minor(a, q + 1, 0), a[0][p + 1], a[q + 1][0];
    var d := Det(Minor(Minor(a, 0, p + 1), q, 0));
    RowTermOfMinor(a, p, q);
    assert ScaleTerms(RowTerms(c), y, q + 1)(p) == Sign(q + 1, Mul(Sign(p, Mul(d, x)), y));
    assert Col(Terms(a), q)(p) == Term(a, p, q) == Sign(p + q + 1, Mul(Mul(d, y), x));
    SwappedProduct(q + 1, p, p + q + 1, d, x, y);
  }

  /** The signed multiple of the minor's determinant that column term
      `q + 1` adds, with that determinant expanded along row 0, is the sum
      of column `q` of the rectangle. */
  lemma ColTermExpanded(a: Grid, q: nat)
    requires IsSquare(a) && Rows(a) >= 3 && q < Rows(a) - 1
    ensures Sign(q + 1, Mul(Det(Minor(a, q + 1, 0)), a[q + 1][0])) == Sum(Rows(a) - 1, Col(Terms(a), q))
  {
    var m, c, y := Rows(a) - 1, Minor(a, q + 1, 0), a[q + 1][0];
    RowExpansion(c);
    SumScale(m, RowTerms(c), y, q + 1);
    forall p: nat | p < m
      ensures ScaleTerms(RowTerms(c), y, q + 1)(p) == Col(Terms(a), q)(p)
    {
      ColTermPart(a, p, q);
    }
    SumExt(m, ScaleTerms(RowTerms(c), y, q + 1), Col(Terms(a), q));
  }

  /** Column term `q + 1`, with the determinant of its minor expanded
      along row 0, is column `q` of the rectangle. */
  lemma ColTermAsSum(a: Grid, q: nat)
    requires IsSquare(a) && Rows(a) >= 3 && q < Rows(a) - 1
    ensures Shift(ColTerms(a))(q) == ColSums(Terms(a), Rows(a) - 1)(q)
  {
    ColTermExpanded(a, q);
    assert Shift(ColTerms(a))(q) == ColTerm(a, q + 1);
    assert ColSums(Terms(a), Rows(a) - 1)(q) == Sum(Rows(a) - 1, Col(Terms(a), q));
  }

  /** Both expansions start with the same term. */
  lemma FirstTerms(a: Grid)
    requires IsSquare(a) && Rows(a) >= 2
    ensures RowTerms(a)(0) == ColTerms(a)(0)
  {
    assert RowTerms(a)(0) == RowTerm(a, 0);
    assert ColTerms(a)(0) == ColTerm(a, 0);
  }

  /** The 2 by 2 case of the column expansion. */
  lemma ColumnExpansionTwo(a: Grid)
    requires IsSquare(a) && Rows(a) == 2
    ensures Det(a) == Sum(2, ColTerms(a))
  {
    DetTwoByTwo(a);
    assert Det(Minor(a, 0, 0)) == a[1][1] by { assert Minor(a, 0, 0)[0][0] == a[1][1]; }
    assert Det(Minor(a, 1, 0)) == a[0][1] by { assert Minor(a, 1, 0)[0][0] == a[0][1]; }
    MulComm(a[1][1], a[0][0]);
  }

  /** The row expansion of a matrix of size at least 3, with every row
      term unfolded into a row of the rectangle. */
  lemma {:induction false} RowSide(a: Grid)
    requires IsSquare(a) && Rows(a) >= 3
    ensures Det(a) == Add(RowTerms(a)(0), Sum(Rows(a) - 1, RowSums(Terms(a), Rows(a) - 1)))
    decreases Rows(a), 0
  {
    var m := Rows(a) - 1;
    RowExpansion(a);
    SumShift(m, RowTerms(a));
    forall p: nat | p < m
      ensures Shift(RowTerms(a))(p) == RowSums(Terms(a), m)(p)
    {
      ColumnExpansion(Minor(a, 0, p + 1));
      RowTermAsSum(a, p);
    }
    SumExt(m, Shift(RowTerms(a)), RowSums(Terms(a), m));
  }

  /** The column expansion of a matrix of size at least 3, with every
      column term unfolded into a column of the rectangle. */
  lemma ColSide(a: Grid)
    requires IsSquare(a) && Rows(a) >= 3
    ensures Sum(Rows(a), ColTerms(a)) == Add(ColTerms(a)(0), Sum(Rows(a) - 1, ColSums(Terms(a), Rows(a) - 1)))
  {
    var m := Rows(a) - 1;
    SumShift(m, ColTerms(a));
    forall q: nat | q < m
      ensures Shift(ColTerms(a))(q) == ColSums(Terms(a), m)(q)
    {
      ColTermAsSum(a, q);
    }
    SumExt(m, Shift(ColTerms(a)), ColSums(Terms(a), m));
  }

  /** Expanding along column 0 gives the determinant: every square matrix
      of size at least 2. */
  lemma {:induction false} ColumnExpansion(a: Grid)
    requires IsSquare(a) && Rows(a) >= 2
    ensures Det(a) == Sum(Rows(a), ColTerms(a))
    decreases Rows(a), 1
  {
    if Rows(a) == 2 {
      ColumnExpansionTwo(a);
    } else {
      RowSide(a);
      ColSide(a);
      FirstTerms(a);
      SumSwap(Rows(a) - 1, Rows(a) - 1, Terms(a));
    }
  }

  /** The row-0 minors of the transpose are the transposed column-0 minors. */
  lemma MinorOfTranspose(a: Grid, i: nat)
    requires IsSquare(a) && Rows(a) >= 2 && i < Rows(a)
    ensures Minor(Transpose(a), 0, i) == Transpose(Minor(a, i, 0))
  {
    var x, y := Minor(Transpose(a), 0, i), Transpose(Minor(a, i, 0));
    forall p, q | 0 <= p < Rows(a) - 1 && 0 <= q < Rows(a) - 1
      ensures x[p][q] == y[p][q]
    {
      assert x[p][q] == Transpose(a)[p + 1][Skip(q, i)];
      assert y[p][q] == Minor(a, i, 0)[q][p];
    }
    GridsEqual(x, y, Rows(a) - 1, Rows(a) - 1);
  }

  /** Row term `i` of the transpose is column term `i`, once the minors
      are known to keep their determinants under transposition. */
  lemma TransposedTerm(a: Grid, i: nat)
    requires IsSquare(a) && Rows(a) >= 2 && i < Rows(a)
    requires Det(Transpose(Minor(a, i, 0))) == Det(Minor(a, i, 0))
    ensures RowTerms(Transpose(a))(i) == ColTerms(a)(i)
  {
    var t := Transpose(a);
    MinorOfTranspose(a, i);
    assert t[0][i] == a[i][0];
    assert RowTerms(t)(i) == RowTerm(t, i);
    assert ColTerms(a)(i) == ColTerm(a, i);
  }

  /** Transposing a square matrix keeps its determinant. */
  lemma {:induction false} DetTranspose(a: Grid)
    requires IsSquare(a)
    ensures Det(Transpose(a)) == Det(a)
    decreases Rows(a)
  {
    var t := Transpose(a);
    if Rows(a) == 1 {
      assert t[0][0] == a[0][0];
    } else {
      RowExpansion(t);
      ColumnExpansion(a);
      forall i: nat | i < Rows(a)
        ensures RowTerms(t)(i) == ColTerms(a)(i)
      {
        DetTranspose(Minor(a, i, 0));
        TransposedTerm(a, i);
      }
      SumExt(Rows(a), RowTerms(t), ColTerms(a));
    }
  }

  /** `findDeterminant` of the transpose: the same refusal for a
      non-square matrix, the same value for a square one. */
  lemma DeterminantTranspose(a: Grid)
    requires IsMatrix(a)
    ensures Determinant(Transpose(a)) == Determinant(a)
  {
    if Rows(a) == Cols(a) {
      DetTranspose(a);
    }
  }
}
