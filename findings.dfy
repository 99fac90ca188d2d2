/** Two guards of the engine that disagree with the operation they protect,
    each shown on a concrete input, next to the corrected definition and the
    property that holds of it. */
module MatrixFindings {
  import opened Complexes
  import opened Outcomes
  import opened Grids
  import opened MatrixLaws

  /** Subtraction with the guard of `plus`: refused exactly when the
      shapes differ. */
  function MinusMatched(a: Grid, b: Grid): (r: Result<Grid>)
    requires IsMatrix(a) && IsMatrix(b)
    ensures r.Err? <==> Rows(a) != Rows(b) || Cols(a) != Cols(b)
    ensures r.Err? ==> r.error == IncompatibleSizes
    ensures r.Ok? ==> IsGrid(r.value, Rows(a), Cols(a))
    ensures r.Ok? ==> forall i, j :: 0 <= i < Rows(a) && 0 <= j < Cols(a) ==>
                        r.value[i][j] == Sub(a[i][j], b[i][j])
  {
    if Rows(a) != Rows(b) || Cols(a) != Cols(b) then Err(IncompatibleSizes)
    else Ok(seq(Rows(a), i requires 0 <= i < Rows(a) =>
              seq(Cols(a), j requires 0 <= j < Cols(a) => Sub(a[i][j], b[i][j]))))
  }

  /** The matrix product: defined exactly when the column count of `a` is
      the row count of `b`, each cell summing over that shared size. */
  function Product(a: Grid, b: Grid): (r: Result<Grid>)
    requires IsMatrix(a) && IsMatrix(b)
    ensures r.Err? <==> Cols(a) != Rows(b)
    ensures r.Err? ==> r.error == IncompatibleSizes
    ensures r.Ok? ==> IsGrid(r.value, Rows(a), Cols(b))
    ensures r.Ok? ==> forall i, j :: 0 <= i < Rows(a) && 0 <= j < Cols(b) ==>
                        r.value[i][j] == Dot(a, b, i, j, Cols(a))
  {
    if Cols(a) != Rows(b) then Err(IncompatibleSizes)
    else Ok(seq(Rows(a), i requires 0 <= i < Rows(a) =>
              seq(Cols(b), j requires 0 <= j < Cols(b) => Dot(a, b, i, j, Cols(a)))))
  }

  /** `minus` as written compares the row count of the first operand with
      the column count of the second, so it refuses two 2 by 3 matrices of
      the same shape; the corrected subtraction accepts them. */
  lemma MinusRefusesSameShape()
    ensures Minus(Filled(2, 3, Zero), Filled(2, 3, Zero)) == Err(IncompatibleSizes)
    ensures MinusMatched(Filled(2, 3, Zero), Filled(2, 3, Zero)).Ok?
  {
  }

  /** With the corrected guard, subtraction undoes addition for every
      shape, not only for square matrices. */
  lemma MinusMatchedAfterPlus(a: Grid, b: Grid)
    requires IsMatrix(a) && IsMatrix(b) && Rows(a) == Rows(b) && Cols(a) == Cols(b)
    ensures IsMatrix(Plus(a, b).value)
    ensures MinusMatched(Plus(a, b).value, b) == Ok(a)
  {
    var s := Plus(a, b).value;
    var d := MinusMatched(s, b).value;
    forall i, j | 0 <= i < Rows(a) && 0 <= j < Cols(a)
      ensures d[i][j] == a[i][j]
    {
    }
    GridsEqual(d, a, Rows(a), Cols(a));
  }

  /** Both subtractions agree wherever `minus` as written accepts two
      operands of the same shape. */
  lemma MinusMatchedAgrees(a: Grid, b: Grid)
    requires IsMatrix(a) && IsMatrix(b) && Rows(a) == Rows(b) && Cols(a) == Cols(b)
    requires Rows(a) == Cols(a)
    ensures Minus(a, b) == MinusMatched(a, b)
  {
    GridsEqual(Minus(a, b).value, MinusMatched(a, b).value, Rows(a), Cols(a));
  }

  /** `multiply` as written compares the row count of the first operand with
      the column count of the second: it refuses 2 by 3 times 3 by 4, whose
      product exists, and accepts 2 by 3 times 2 by 2, whose product does
      not. */
  lemma MultiplyGuardMisplaced()
    ensures Multiply(Filled(2, 3, Zero), Filled(3, 4, Zero)) == Err(IncompatibleSizes)
    ensures Product(Filled(2, 3, Zero), Filled(3, 4, Zero)).Ok?
    ensures Multiply(Filled(2, 3, Zero), Filled(2, 2, Zero)).Ok?
    ensures Product(Filled(2, 3, Zero), Filled(2, 2, Zero)) == Err(IncompatibleSizes)
  {
  }

  /** Where both guards pass, `multiply` as written computes the product. */
  lemma ProductAgrees(a: Grid, b: Grid)
    requires IsMatrix(a) && IsMatrix(b) && Cols(a) == Rows(b) && Rows(a) == Cols(b)
    ensures Multiply(a, b) == Product(a, b)
  {
    GridsEqual(Multiply(a, b).value, Product(a, b).value, Rows(a), Cols(b));
  }

  /** The product of the transposes, in swapped order, is the transpose of
      the product, at every shape. */
  lemma ProductTranspose(a: Grid, b: Grid)
    requires IsMatrix(a) && IsMatrix(b)
    ensures Product(Transpose(b), Transpose(a)).Err? == Product(a, b).Err?
    ensures Product(a, b).Ok? ==>
              Product(Transpose(b), Transpose(a)).value == Transpose(Product(a, b).value)
  {
    if Product(a, b).Ok? {
      var p := Product(a, b).value;
      var q := Product(Transpose(b), Transpose(a)).value;
      var tp := Transpose(p);
      forall j, i | 0 <= j < Cols(b) && 0 <= i < Rows(a)
        ensures q[j][i] == tp[j][i]
      {
        DotTranspose(a, b, i, j, Cols(a));
      }
      GridsEqual(q, tp, Cols(b), Rows(a));
    }
  }

  /** Summing row `i` of `a` against column `j` of the identity picks out
      `a[i][j]` once the sum has passed column `j`. */
  lemma {:induction false} DotIdentity(a: Grid, i: nat, j: nat, len: nat)
    requires IsMatrix(a) && i < Rows(a) && j < Cols(a) && len <= Cols(a)
    ensures Dot(a, Identity(Cols(a)), i, j, len) == if j < len then a[i][j] else Zero
  {
    if len > 0 {
      DotIdentity(a, i, j, len - 1);
      var e := Identity(Cols(a));
      if len - 1 == j {
        MulOneRight(a[i][j]);
      } else {
        assert e[len - 1][j] == Zero;
        MulZeroRight(a[i][len - 1]);
      }
    }
  }

  /** The identity is a right unit of the product. */
  lemma ProductIdentity(a: Grid)
    requires IsMatrix(a)
    ensures Product(a, Identity(Cols(a))) == Ok(a)
  {
    var p := Product(a, Identity(Cols(a))).value;
    forall i, j | 0 <= i < Rows(a) && 0 <= j < Cols(a)
      ensures p[i][j] == a[i][j]
    {
      DotIdentity(a, i, j, Cols(a));
    }
    GridsEqual(p, a, Rows(a), Cols(a));
  }
}
