/** The matrix engine: a class over a two-dimensional array of complex cells. */
module Matrices {
  import opened Complexes
  import opened Outcomes
  import opened Grids

  class Matrix {
    var field: array2<Complex>
    var sizeM: int  // the number of rows
    var sizeN: int  // the number of columns

    /** Both sizes are at least 1 and the array has exactly those dimensions. */
    ghost predicate Valid()
      reads this
    {
      1 <= sizeM && 1 <= sizeN && field.Length0 == sizeM && field.Length1 == sizeN
    }

    /** The abstract contents: the array as a grid of rows. */
    ghost function Cells(): (g: Grid)
      reads this, field
      ensures IsGrid(g, field.Length0, field.Length1)
      ensures forall i, j :: 0 <= i < field.Length0 && 0 <= j < field.Length1 ==> g[i][j] == field[i, j]
      ensures Valid() ==> IsMatrix(g) && Rows(g) == sizeM && Cols(g) == sizeN
    {
      var f := field;
      seq(f.Length0, i reads f requires 0 <= i < f.Length0 =>
        seq(f.Length1, j reads f requires 0 <= i < f.Length0 && 0 <= j < f.Length1 => f[i, j]))
    }

    /** A matrix whose array holds the cells of `g` has `g` as its contents. */
    static lemma CellsAre(m: Matrix, g: Grid)
      requires IsGrid(g, m.field.Length0, m.field.Length1)
      requires forall p, q :: 0 <= p < m.field.Length0 && 0 <= q < m.field.Length1 ==> m.field[p, q] == g[p][q]
      ensures m.Cells() == g
    {
      GridsEqual(m.Cells(), g, m.field.Length0, m.field.Length1);
    }

    /** A fresh `sizeM` by `sizeN` matrix of zero cells; callers have checked the sizes. */
    constructor Sized(sizeM: int, sizeN: int)
      requires 1 <= sizeM && 1 <= sizeN
      ensures Valid() && fresh(field)
      ensures this.sizeM == sizeM && this.sizeN == sizeN
      ensures Cells() == Filled(sizeM, sizeN, Zero)
    {
      this.sizeM := sizeM;
      this.sizeN := sizeN;
      field := new Complex[sizeM, sizeN]((i, j) => Zero);
      new;
      GridsEqual(Cells(), Filled(sizeM, sizeN, Zero), sizeM, sizeN);
    }

    /** A matrix over the caller's own array, which it goes on sharing. */
    constructor Adopt(complexField: array2<Complex>)
      requires 1 <= complexField.Length0 && 1 <= complexField.Length1
      ensures Valid() && field == complexField
      ensures sizeM == complexField.Length0 && sizeN == complexField.Length1
    {
      sizeN := complexField.Length1;
      sizeM := complexField.Length0;
      field := complexField;
    }

    /** `Matrix(int sizeM, int sizeN)`: sizes below 1 are refused. The cells
        start out as zero. */
    static method New(sizeM: int, sizeN: int) returns (r: Result<Matrix>)
      ensures r.Err? <==> sizeN < 1 || sizeM < 1
      ensures r.Err? ==> r.error == WrongSize
      ensures r.Ok? ==> fresh(r.value) && fresh(r.value.field) && r.value.Valid()
      ensures r.Ok? ==> r.value.sizeM == sizeM && r.value.sizeN == sizeN
      ensures r.Ok? ==> r.value.Cells() == Filled(sizeM, sizeN, Zero)
    {
      if sizeN < 1 || sizeM < 1 {
        return Err(WrongSize);
      }
      var m := new Matrix.Sized(sizeM, sizeN);
      return Ok(m);
    }

    /** `Matrix()`: delegates to the sizes 0 by 0, so it always fails. */
    static method Empty() returns (r: Result<Matrix>)
      ensures r == Err(WrongSize)
    {
      r := New(0, 0);
    }

    /** `Matrix(Complex[][] complexField)`: the sizes are read off the array
        and a zero width is refused; the matrix keeps the caller's array. */
    static method FromComplexField(complexField: array2<Complex>) returns (r: Result<Matrix>)
      requires 1 <= complexField.Length0
      ensures r.Err? <==> complexField.Length1 < 1
      ensures r.Err? ==> r.error == WrongSize
      ensures r.Ok? ==> fresh(r.value) && r.value.Valid() && r.value.field == complexField
      ensures r.Ok? ==> r.value.sizeM == complexField.Length0 && r.value.sizeN == complexField.Length1
    {
      var sizeN := complexField.Length1;
      var sizeM := complexField.Length0;
      if sizeN < 1 || sizeM < 1 {
        return Err(WrongSize);
      }
      var m := new Matrix.Adopt(complexField);
      return Ok(m);
    }

    /** `Matrix(int[][] intField)`: each integer becomes a complex number
        with a zero imaginary part, in a fresh array. There is no size
        check: a grid of zero-width rows gives a matrix with no columns,
        which is outside `Valid()`. */
    constructor FromIntField(intField: array2<int>)
      requires 1 <= intField.Length0
      ensures Valid() <==> 1 <= intField.Length1
      ensures fresh(field)
      ensures sizeM == intField.Length0 && sizeN == intField.Length1
      ensures forall i, j :: 0 <= i < sizeM && 0 <= j < sizeN ==> Cells()[i][j] == FromInt(intField[i, j])
    {
      var m := intField.Length0;
      var n := intField.Length1;
      var complexField := new Complex[m, n]((i, j) => Zero);
      for i := 0 to m
        invariant forall p, q :: 0 <= p < i && 0 <= q < n ==> complexField[p, q] == FromInt(intField[p, q])
      {
        for j := 0 to n
          invariant forall p, q :: 0 <= p < i && 0 <= q < n ==> complexField[p, q] == FromInt(intField[p, q])
          invariant forall q :: 0 <= q < j ==> complexField[i, q] == FromInt(intField[i, q])
        {
          complexField[i, j] := FromInt(intField[i, j]);
        }
      }
      sizeN := n;
      sizeM := m;
      field := complexField;
    }

    /** `plus`: both sizes must agree; the cells are added pairwise into a
        fresh matrix and neither operand changes. */
    method Plus(secondMatrix: Matrix) returns (r: Result<Matrix>)
      requires Valid() && secondMatrix.Valid()
      ensures r.Err? == Grids.Plus(Cells(), secondMatrix.Cells()).Err?
      ensures r.Err? ==> r.error == IncompatibleSizes
      ensures r.Ok? ==> fresh(r.value) && fresh(r.value.field) && r.value.Valid()
      ensures r.Ok? ==> r.value.Cells() == Grids.Plus(Cells(), secondMatrix.Cells()).value
    {
      if sizeM != secondMatrix.sizeM || sizeN != secondMatrix.sizeN {
        return Err(IncompatibleSizes);
      }
      ghost var a, b := Cells(), secondMatrix.Cells();
      var out := AddCells(field, secondMatrix.field, sizeM, sizeN);
      var result := new Matrix.Adopt(out);
      assert Cells() == a;
      assert secondMatrix.Cells() == b;
      CellsAre(result, Grids.Plus(a, b).value);
      return Ok(result);
    }

    /** `minus`: the only guard is that the row count of this matrix equals
        the column count of the other; the result has the sizes of this
        matrix, and the cells of the other are read at the same indices. */
    method Minus(secondMatrix: Matrix) returns (r: Result<Matrix>)
      requires Valid() && secondMatrix.Valid()
      requires sizeM == secondMatrix.sizeN ==> sizeM <= secondMatrix.sizeM && sizeN <= secondMatrix.sizeN
      ensures r.Err? == Grids.Minus(Cells(), secondMatrix.Cells()).Err?
      ensures r.Err? ==> r.error == IncompatibleSizes
      ensures r.Ok? ==> fresh(r.value) && fresh(r.value.field) && r.value.Valid()
      ensures r.Ok? ==> r.value.Cells() == Grids.Minus(Cells(), secondMatrix.Cells()).value
    {
      if sizeM != secondMatrix.sizeN {
        return Err(IncompatibleSizes);
      }
      ghost var a, b := Cells(), secondMatrix.Cells();
      var out := SubCells(field, secondMatrix.field, sizeM, sizeN);
      var result := new Matrix.Adopt(out);
      assert Cells() == a;
      assert secondMatrix.Cells() == b;
      CellsAre(result, Grids.Minus(a, b).value);
      return Ok(result);
    }

    /** `multiply`: the guard compares the row count of this matrix with the
        column count of the other; each cell is a running sum over the rows
        of the other matrix. */
    method Multiply(secondMatrix: Matrix) returns (r: Result<Matrix>)
      requires Valid() && secondMatrix.Valid()
      requires sizeM == secondMatrix.sizeN ==> secondMatrix.sizeM <= sizeN
      ensures r.Err? == Grids.Multiply(Cells(), secondMatrix.Cells()).Err?
      ensures r.Err? ==> r.error == IncompatibleSizes
      ensures r.Ok? ==> fresh(r.value) && fresh(r.value.field) && r.value.Valid()
      ensures r.Ok? ==> r.value.Cells() == Grids.Multiply(Cells(), secondMatrix.Cells()).value
    {
      if sizeM != secondMatrix.sizeN {
        return Err(IncompatibleSizes);
      }
      ghost var a, b := Cells(), secondMatrix.Cells();
      var out := ProductCells(field, secondMatrix.field, a, b);
      var result := new Matrix.Adopt(out);
      assert Cells() == a;
      assert secondMatrix.Cells() == b;
      CellsAre(result, Grids.Multiply(a, b).value);
      return Ok(result);
    }

    /** `transpose`: a fresh matrix with the sizes swapped and cell `(j, i)`
        taken from cell `(i, j)`. */
    method Transpose() returns (r: Matrix)
      requires Valid()
      ensures fresh(r) && fresh(r.field) && r.Valid()
      ensures r.Cells() == Grids.Transpose(Cells())
    {
      ghost var a := Cells();
      var out := TransposeCells(field);
      r := new Matrix.Adopt(out);
      assert Cells() == a;
      CellsAre(r, Grids.Transpose(a));
    }

    /** `findDeterminant`: refuses a non-square matrix, returns the only cell
        of a 1 by 1 matrix, and otherwise expands along row 0, adding the
        terms of even columns and subtracting those of odd ones. */
    method FindDeterminant() returns (r: Result<Complex>)
      requires Valid()
      ensures r == Determinant(Cells())
      decreases sizeM, 1
    {
      if sizeM != sizeN {
        return Err(NotSquare);
      }
      if sizeM == 1 {
        return Ok(field[0, 0]);
      }
      ghost var a := Cells();
      var result := Zero;
      for i := 0 to sizeN
        invariant Cells() == a
        invariant result == Expand(a, i)
      {
        var term := Cofactor(i);
        assert term == Mul(Det(Minor(a, 0, i)), a[0][i]);
        if i % 2 == 0 {
          result := Add(result, term);
        } else {
          result := Sub(result, term);
        }
      }
      return Ok(result);
    }

    /** One round of the expansion loop of `findDeterminant`, before the
        sign: the determinant of the minor for column `i`, times the cell
        `(0, i)`. */
    method Cofactor(i: int) returns (term: Complex)
      requires Valid() && sizeM == sizeN && 2 <= sizeM && 0 <= i < sizeN
      ensures term == Mul(Det(Minor(Cells(), 0, i)), Cells()[0][i])
      decreases sizeM, 0
    {
      ghost var a := Cells();
      var miniMatrix := MinorMatrix(i);
      ghost var minor := miniMatrix.Cells();
      var minorDeterminant := miniMatrix.FindDeterminant();
      assert miniMatrix.Cells() == minor;
      assert Cells() == a;
      assert minorDeterminant == Ok(Det(Minor(a, 0, i)));
      term := Mul(minorDeterminant.value, field[0, i]);
      assert field[0, i] == a[0][i];
    }

    /** The `miniMatrix` that `findDeterminant` builds for column `i`. */
    method MinorMatrix(i: int) returns (miniMatrix: Matrix)
      requires Valid() && sizeM == sizeN && 2 <= sizeM && 0 <= i < sizeN
      ensures fresh(miniMatrix) && fresh(miniMatrix.field) && miniMatrix.Valid()
      ensures miniMatrix.sizeM == sizeM - 1
      ensures miniMatrix.Cells() == Minor(Cells(), 0, i)
    {
      ghost var a := Cells();
      var mini := MinorCells(field, i);
      miniMatrix := new Matrix.Adopt(mini);
      assert Cells() == a;
      ghost var minor := Minor(a, 0, i);
      forall p, q | 0 <= p < sizeM - 1 && 0 <= q < sizeN - 1
        ensures mini[p, q] == minor[p][q]
      {
        assert mini[p, q] == field[p + 1, Skip(q, i)];
      }
      CellsAre(miniMatrix, minor);
    }

    /** `getElement`: the cell at row `m`, column `n`. */
    function GetElement(m: int, n: int): (c: Complex)
      reads this, field
      requires Valid() && 0 <= m < sizeM && 0 <= n < sizeN
      ensures c == Cells()[m][n]
    {
      field[m, n]
    }

    /** `setElement(Complex, int, int)`: overwrites cell `(m, n)` and nothing else. */
    method SetElement(number: Complex, m: int, n: int)
      requires Valid() && 0 <= m < sizeM && 0 <= n < sizeN
      modifies field
      ensures Valid()
      ensures Cells() == old(Cells())[m := old(Cells())[m][n := number]]
    {
      field[m, n] := number;
      GridsEqual(Cells(), old(Cells())[m := old(Cells())[m][n := number]], sizeM, sizeN);
    }

    /** `setElement(int, int, int)`: stores the integer with a zero imaginary part. */
    method SetElementInt(number: int, m: int, n: int)
      requires Valid() && 0 <= m < sizeM && 0 <= n < sizeN
      modifies field
      ensures Valid()
      ensures Cells() == old(Cells())[m := old(Cells())[m][n := FromInt(number)]]
    {
      SetElement(FromInt(number), m, n);
    }
  }

  // The loops of the operations, over the arrays themselves.

  /** The two loops of `plus`. */
  method AddCells(f: array2<Complex>, g: array2<Complex>, m: int, n: int) returns (out: array2<Complex>)
    requires 0 <= m <= f.Length0 && m <= g.Length0 && 0 <= n <= f.Length1 && n <= g.Length1
    ensures fresh(out) && out.Length0 == m && out.Length1 == n
    ensures forall p, q :: 0 <= p < m && 0 <= q < n ==> out[p, q] == Add(f[p, q], g[p, q])
  {
    out := new Complex[m, n]((i, j) => Zero);
    for i := 0 to m
      invariant forall p, q :: 0 <= p < i && 0 <= q < n ==> out[p, q] == Add(f[p, q], g[p, q])
    {
      for j := 0 to n
        invariant forall p, q :: 0 <= p < i && 0 <= q < n ==> out[p, q] == Add(f[p, q], g[p, q])
        invariant forall q :: 0 <= q < j ==> out[i, q] == Add(f[i, q], g[i, q])
      {
        out[i, j] := Add(f[i, j], g[i, j]);
      }
    }
  }

  /** The two loops of `minus`. */
  method SubCells(f: array2<Complex>, g: array2<Complex>, m: int, n: int) returns (out: array2<Complex>)
    requires 0 <= m <= f.Length0 && m <= g.Length0 && 0 <= n <= f.Length1 && n <= g.Length1
    ensures fresh(out) && out.Length0 == m && out.Length1 == n
    ensures forall p, q :: 0 <= p < m && 0 <= q < n ==> out[p, q] == Sub(f[p, q], g[p, q])
  {
    out := new Complex[m, n]((i, j) => Zero);
    for i := 0 to m
      invariant forall p, q :: 0 <= p < i && 0 <= q < n ==> out[p, q] == Sub(f[p, q], g[p, q])
    {
      for j := 0 to n
        invariant forall p, q :: 0 <= p < i && 0 <= q < n ==> out[p, q] == Sub(f[p, q], g[p, q])
        invariant forall q :: 0 <= q < j ==> out[i, q] == Sub(f[i, q], g[i, q])
      {
        out[i, j] := Sub(f[i, j], g[i, j]);
      }
    }
  }

  /** The three loops of `multiply`: `out[i, j]` is the running sum over
      `k < g.Length0` of `f[i, k] * g[k, j]`; `a` and `b` are the contents
      of `f` and `g`. */
  method ProductCells(f: array2<Complex>, g: array2<Complex>, ghost a: Grid, ghost b: Grid)
    returns (out: array2<Complex>)
    requires IsMatrix(a) && Rows(a) == f.Length0 && Cols(a) == f.Length1
    requires IsMatrix(b) && Rows(b) == g.Length0 && Cols(b) == g.Length1
    requires forall p, q :: 0 <= p < f.Length0 && 0 <= q < f.Length1 ==> a[p][q] == f[p, q]
    requires forall p, q :: 0 <= p < g.Length0 && 0 <= q < g.Length1 ==> b[p][q] == g[p, q]
    requires g.Length0 <= f.Length1
    ensures fresh(out) && out.Length0 == f.Length0 && out.Length1 == g.Length1
    ensures forall p, q :: 0 <= p < f.Length0 && 0 <= q < g.Length1 ==> out[p, q] == Dot(a, b, p, q, g.Length0)
  {
    var rows, cols, len := f.Length0, g.Length1, g.Length0;
    out := new Complex[rows, cols]((i, j) => Zero);
    for i := 0 to rows
      invariant forall p, q :: 0 <= p < i && 0 <= q < cols ==> out[p, q] == Dot(a, b, p, q, len)
    {
      for j := 0 to cols
        invariant forall p, q :: 0 <= p < i && 0 <= q < cols ==> out[p, q] == Dot(a, b, p, q, len)
        invariant forall q :: 0 <= q < j ==> out[i, q] == Dot(a, b, i, q, len)
      {
        var sum := Zero;
        for k := 0 to len
          invariant sum == Dot(a, b, i, j, k)
        {
          sum := Add(sum, Mul(f[i, k], g[k, j]));
        }
        out[i, j] := sum;
      }
    }
  }

  /** The two loops of `transpose`. */
  method TransposeCells(f: array2<Complex>) returns (out: array2<Complex>)
    ensures fresh(out) && out.Length0 == f.Length1 && out.Length1 == f.Length0
    ensures forall p, q :: 0 <= p < f.Length0 && 0 <= q < f.Length1 ==> out[q, p] == f[p, q]
  {
    out := new Complex[f.Length1, f.Length0]((i, j) => Zero);
    for i := 0 to f.Length0
      invariant forall p, q :: 0 <= p < i && 0 <= q < f.Length1 ==> out[q, p] == f[p, q]
    {
      for j := 0 to f.Length1
        invariant forall p, q :: 0 <= p < i && 0 <= q < f.Length1 ==> out[q, p] == f[p, q]
        invariant forall q :: 0 <= q < j ==> out[q, i] == f[i, q]
      {
        out[j, i] := f[i, j];
      }
    }
  }

  /** The loops of `findDeterminant` that fill the minor for column `i`:
      `j` walks every column but `i`, `k` walks rows 1 and up, and the
      counters `indexM` and `indexN` walk the minor. */
  method MinorCells(f: array2<Complex>, i: int) returns (mini: array2<Complex>)
    requires f.Length0 == f.Length1 && 2 <= f.Length0 && 0 <= i < f.Length1
    ensures fresh(mini) && mini.Length0 == f.Length0 - 1 && mini.Length1 == f.Length1 - 1
    ensures forall p, q :: 0 <= p < mini.Length0 && 0 <= q < mini.Length1 ==> mini[p, q] == f[p + 1, Skip(q, i)]
  {
    var sizeM, sizeN := f.Length0, f.Length1;
    mini := new Complex[sizeM - 1, sizeN - 1]((p, q) => Zero);
    var indexM := 0;
    var indexN := 0;
    for j := 0 to sizeN
      invariant indexM == 0
      invariant indexN == if j <= i then j else j - 1
      invariant forall p, q :: 0 <= p < sizeM - 1 && 0 <= q < indexN ==> mini[p, q] == f[p + 1, Skip(q, i)]
    {
      if i == j {
        continue;
      }
      for k := 1 to sizeM
        invariant indexM == k - 1
        invariant forall p, q :: 0 <= p < sizeM - 1 && 0 <= q < indexN ==> mini[p, q] == f[p + 1, Skip(q, i)]
        invariant forall p :: 0 <= p < indexM ==> mini[p, indexN] == f[p + 1, j]
      {
        mini[indexM, indexN] := f[k, j];
        indexM := indexM + 1;
      }
      indexM := 0;
      indexN := indexN + 1;
    }
  }
}
