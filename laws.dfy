/** Properties of the matrix operations, stated on their value-level meaning. */
module MatrixLaws {
  import opened Complexes
  import opened Outcomes
  import opened Grids

  /** `plus` is commutative, including its refusals. */
  lemma PlusCommutes(a: Grid, b: Grid)
    requires IsMatrix(a) && IsMatrix(b)
    ensures Plus(a, b) == Plus(b, a)
  {
    if Plus(a, b).Ok? {
      var s, t := Plus(a, b).value, Plus(b, a).value;
      forall i, j | 0 <= i < Rows(a) && 0 <= j < Cols(a)
        ensures s[i][j] == t[i][j]
      {
        AddComm(a[i][j], b[i][j]);
      }
      GridsEqual(s, t, Rows(a), Cols(a));
    }
  }

  /** Subtracting `b` from `a + b` with `minus` as written gives back `a`
      exactly when `a` is square: for any other shape the guard compares
      two different sizes and refuses. */
  lemma MinusAfterPlus(a: Grid, b: Grid)
    requires IsMatrix(a) && IsMatrix(b) && Rows(a) == Rows(b) && Cols(a) == Cols(b)
    ensures IsMatrix(Plus(a, b).value)
    ensures Minus(Plus(a, b).value, b) == if Rows(a) == Cols(a) then Ok(a) else Err(IncompatibleSizes)
  {
    var s := Plus(a, b).value;
    if Rows(a) == Cols(a) {
      var d := Minus(s, b).value;
      forall i, j | 0 <= i < Rows(a) && 0 <= j < Cols(a)
        ensures d[i][j] == a[i][j]
      {
      }
      GridsEqual(d, a, Rows(a), Cols(a));
    }
  }

  /** Transposing twice gives back the matrix. */
  lemma TransposeInvolution(a: Grid)
    requires IsMatrix(a)
    ensures Transpose(Transpose(a)) == a
  {
    var t := Transpose(Transpose(a));
    forall i, j | 0 <= i < Rows(a) && 0 <= j < Cols(a)
      ensures t[i][j] == a[i][j]
    {
      assert Transpose(a)[j][i] == a[i][j];
    }
    GridsEqual(t, a, Rows(a), Cols(a));
  }

  /** The running sum of `multiply` over transposed operands, with its
      factors swapped, is the same sum. */
  lemma {:induction false} DotTranspose(a: Grid, b: Grid, i: nat, j: nat, len: nat)
    requires IsMatrix(a) && IsMatrix(b)
    requires i < Rows(a) && j < Cols(b) && len <= Cols(a) && len <= Rows(b)
    ensures Dot(Transpose(b), Transpose(a), j, i, len) == Dot(a, b, i, j, len)
  {
    if len > 0 {
      DotTranspose(a, b, i, j, len - 1);
      MulComm(a[i][len - 1], b[len - 1][j]);
    }
  }

  /** The product of the transposes, in swapped order, is the transpose of
      the product, whenever the inner sizes agree (so that `multiply` sums
      over exactly the shared dimension). */
  lemma MultiplyTranspose(a: Grid, b: Grid)
    requires IsMatrix(a) && IsMatrix(b) && Cols(a) == Rows(b)
    ensures Multiply(Transpose(b), Transpose(a)).Err? == Multiply(a, b).Err?
    ensures Multiply(a, b).Ok? ==>
              Multiply(Transpose(b), Transpose(a)).value == Transpose(Multiply(a, b).value)
  {
    if Multiply(a, b).Ok? {
      var p := Multiply(a, b).value;
      var q := Multiply(Transpose(b), Transpose(a)).value;
      var tp := Transpose(p);
      forall j, i | 0 <= j < Cols(b) && 0 <= i < Rows(a)
        ensures q[j][i] == tp[j][i]
      {
        DotTranspose(a, b, i, j, Rows(b));
      }
      GridsEqual(q, tp, Cols(b), Rows(a));
    }
  }

  /** `a` is the 2 by 3 integer matrix `[[1, 2, 3], [4, 5, 6]]`. */
  predicate IsExampleLeft(a: Grid) {
    IsMatrix(a) && Rows(a) == 2 && Cols(a) == 3 &&
    a[0][0] == FromInt(1) && a[0][1] == FromInt(2) && a[0][2] == FromInt(3) &&
    a[1][0] == FromInt(4) && a[1][1] == FromInt(5) && a[1][2] == FromInt(6)
  }

  /** `b` is the 3 by 2 integer matrix `[[7, 8], [9, 10], [11, 12]]`. */
  predicate IsExampleRight(b: Grid) {
    IsMatrix(b) && Rows(b) == 3 && Cols(b) == 2 &&
    b[0][0] == FromInt(7) && b[0][1] == FromInt(8) &&
    b[1][0] == FromInt(9) && b[1][1] == FromInt(10) &&
    b[2][0] == FromInt(11) && b[2][1] == FromInt(12)
  }

  /** The two example matrices, written out. */
  function ExampleLeft(): (g: Grid)
    ensures IsExampleLeft(g)
  {
    [[FromInt(1), FromInt(2), FromInt(3)], [FromInt(4), FromInt(5), FromInt(6)]]
  }

  function ExampleRight(): (g: Grid)
    ensures IsExampleRight(g)
  {
    [[FromInt(7), FromInt(8)], [FromInt(9), FromInt(10)], [FromInt(11), FromInt(12)]]
  }

  /** Cell `(i, j)` of the example product: row `i` of the left example
      times column `j` of the right one, summed term by term. */
  lemma ExampleDot(a: Grid, b: Grid, i: nat, j: nat, x0: int, x1: int, x2: int, y0: int, y1: int, y2: int)
    requires IsMatrix(a) && Rows(a) == 2 && Cols(a) == 3
    requires IsMatrix(b) && Rows(b) == 3 && Cols(b) == 2
    requires i < 2 && j < 2
    requires a[i][0] == FromInt(x0) && a[i][1] == FromInt(x1) && a[i][2] == FromInt(x2)
    requires b[0][j] == FromInt(y0) && b[1][j] == FromInt(y1) && b[2][j] == FromInt(y2)
    ensures Multiply(a, b).Ok?
    ensures Multiply(a, b).value[i][j] == FromInt(x0 * y0 + x1 * y1 + x2 * y2)
  {
    assert Dot(a, b, i, j, 0) == FromInt(0);
    MulFromInt(x0, y0);
    AddFromInt(0, x0 * y0);
    assert Dot(a, b, i, j, 1) == FromInt(x0 * y0);
    MulFromInt(x1, y1);
    AddFromInt(x0 * y0, x1 * y1);
    assert Dot(a, b, i, j, 2) == FromInt(x0 * y0 + x1 * y1);
    MulFromInt(x2, y2);
    AddFromInt(x0 * y0 + x1 * y1, x2 * y2);
    assert Dot(a, b, i, j, 3) == FromInt(x0 * y0 + x1 * y1 + x2 * y2);
  }

  /** A 2 by 3 times a 3 by 2 matrix of integers is the 2 by 2 matrix
      `[[58, 64], [139, 154]]`: every cell is the dot product of a row of
      the first and a column of the second. */
  lemma MultiplyExample(a: Grid, b: Grid)
    requires IsExampleLeft(a) && IsExampleRight(b)
    ensures Multiply(a, b).Ok?
    ensures var p := Multiply(a, b).value;
      IsGrid(p, 2, 2) &&
      p[0][0] == FromInt(58) && p[0][1] == FromInt(64) &&
      p[1][0] == FromInt(139) && p[1][1] == FromInt(154)
  {
    ExampleDot(a, b, 0, 0, 1, 2, 3, 7, 9, 11);
    ExampleDot(a, b, 0, 1, 1, 2, 3, 8, 10, 12);
    ExampleDot(a, b, 1, 0, 4, 5, 6, 7, 9, 11);
    ExampleDot(a, b, 1, 1, 4, 5, 6, 8, 10, 12);
  }

  /** A 1 by 1 matrix has its only cell as determinant. */
  lemma DeterminantOfOne(c: Complex)
    ensures Determinant([[c]]) == Ok(c)
  {
  }

  /** The cofactor expansion of a 2 by 2 matrix is the familiar
      `a[0][0] * a[1][1] - a[0][1] * a[1][0]`. */
  lemma DetTwoByTwo(a: Grid)
    requires IsSquare(a) && Rows(a) == 2
    ensures Det(a) == Sub(Mul(a[0][0], a[1][1]), Mul(a[0][1], a[1][0]))
  {
    var m0, m1 := Minor(a, 0, 0), Minor(a, 0, 1);
    assert Det(m0) == a[1][1] by { assert m0[0][0] == a[1][1]; }
    assert Det(m1) == a[1][0] by { assert m1[0][0] == a[1][0]; }
    assert Expand(a, 1) == Add(Zero, Mul(a[1][1], a[0][0]));
    MulComm(a[1][1], a[0][0]);
    MulComm(a[1][0], a[0][1]);
  }

  /** The determinant of `[[1, 2], [3, 4]]` is -2. */
  lemma DeterminantExample()
    ensures Determinant([[FromInt(1), FromInt(2)], [FromInt(3), FromInt(4)]]) == Ok(FromInt(-2))
  {
    DetTwoByTwo([[FromInt(1), FromInt(2)], [FromInt(3), FromInt(4)]]);
  }

  /** Deleting row 0 and column 0 of an identity matrix leaves the next
      smaller identity matrix. */
  lemma MinorOfIdentity(n: nat)
    requires n >= 2
    ensures Minor(Identity(n), 0, 0) == Identity(n - 1)
  {
    var m, e := Minor(Identity(n), 0, 0), Identity(n - 1);
    forall i, j | 0 <= i < n - 1 && 0 <= j < n - 1
      ensures m[i][j] == e[i][j]
    {
      assert m[i][j] == Identity(n)[i + 1][j + 1];
    }
    GridsEqual(m, e, n - 1, n - 1);
  }

  /** In the expansion of an identity matrix every column but the first
      contributes nothing, since its entry in row 0 is zero. */
  lemma {:induction false} ExpandIdentity(n: nat, count: nat)
    requires n >= 2 && 1 <= count <= n
    ensures Expand(Identity(n), count) == Det(Minor(Identity(n), 0, 0))
  {
    var e := Identity(n);
    if count > 1 {
      var i := count - 1;
      ExpandIdentity(n, i);
      var term := Mul(Det(Minor(e, 0, i)), e[0][i]);
      assert term == Zero by {
        assert e[0][i] == Zero;
        MulZeroRight(Det(Minor(e, 0, i)));
      }
      assert Expand(e, count) == if i % 2 == 0 then Add(Expand(e, i), term) else Sub(Expand(e, i), term);
    } else {
      assert Expand(e, 1) == Add(Zero, Mul(Det(Minor(e, 0, 0)), e[0][0]));
      MulOneRight(Det(Minor(e, 0, 0)));
    }
  }

  /** The identity matrix has determinant one, at every size. */
  lemma {:induction false} DetIdentity(n: nat)
    requires n >= 1
    ensures Det(Identity(n)) == FromInt(1)
  {
    if n >= 2 {
      ExpandIdentity(n, n);
      MinorOfIdentity(n);
      DetIdentity(n - 1);
    }
  }
}
