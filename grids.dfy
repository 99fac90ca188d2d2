/** Value-level meaning of the matrix operations.

    A grid is the abstract contents of a matrix: a sequence of rows, each a
    sequence of complex cells. Every operation of the engine is given here as
    a function on grids, with the dimension guard exactly as the engine checks
    it; the class in module Matrices is proved to compute these functions.
    The corrected guards of two of them are in module MatrixFindings. */
module Grids {
  import opened Complexes
  import opened Outcomes

  type Grid = seq<seq<Complex>>

  /** `g` has `m` rows, each of `n` cells. */
  predicate IsGrid(g: Grid, m: nat, n: nat) {
    |g| == m && forall i :: 0 <= i < m ==> |g[i]| == n
  }

  function Rows(g: Grid): nat { |g| }

  function Cols(g: Grid): nat { if |g| == 0 then 0 else |g[0]| }

  /** The shape of every matrix: at least one row and one column, all rows the same width. */
  predicate IsMatrix(g: Grid) {
    Rows(g) >= 1 && Cols(g) >= 1 && IsGrid(g, Rows(g), Cols(g))
  }

  predicate IsSquare(g: Grid) {
    IsMatrix(g) && Rows(g) == Cols(g)
  }

  /** The cells of a freshly sized matrix. */
  function Filled(m: nat, n: nat, c: Complex): (g: Grid)
    ensures IsGrid(g, m, n)
    ensures forall i, j :: 0 <= i < m && 0 <= j < n ==> g[i][j] == c
  {
    seq(m, i => seq(n, j => c))
  }

  /** `plus`: the guard compares both dimensions; cells are added pairwise. */
  function Plus(a: Grid, b: Grid): (r: Result<Grid>)
    requires IsMatrix(a) && IsMatrix(b)
    ensures r.Err? <==> Rows(a) != Rows(b) || Cols(a) != Cols(b)
    ensures r.Err? ==> r.error == IncompatibleSizes
    ensures r.Ok? ==> IsGrid(r.value, Rows(a), Cols(a))
    ensures r.Ok? ==> forall i, j :: 0 <= i < Rows(a) && 0 <= j < Cols(a) ==>
                        r.value[i][j] == Add(a[i][j], b[i][j])
  {
    if Rows(a) != Rows(b) || Cols(a) != Cols(b) then Err(IncompatibleSizes)
    else Ok(seq(Rows(a), i requires 0 <= i < Rows(a) =>
              seq(Cols(a), j requires 0 <= j < Cols(a) => Add(a[i][j], b[i][j]))))
  }

  /** `minus`: the guard compares the row count of `a` with the column count
      of `b` and nothing else; past the guard, cells of `b` are read at the
      indices of `a`, so `b` must be at least as large as `a` in both directions. */
  function Minus(a: Grid, b: Grid): (r: Result<Grid>)
    requires IsMatrix(a) && IsMatrix(b)
    requires Rows(a) == Cols(b) ==> Rows(a) <= Rows(b) && Cols(a) <= Cols(b)
    ensures r.Err? <==> Rows(a) != Cols(b)
    ensures r.Err? ==> r.error == IncompatibleSizes
    ensures r.Ok? ==> IsGrid(r.value, Rows(a), Cols(a))
    ensures r.Ok? ==> forall i, j :: 0 <= i < Rows(a) && 0 <= j < Cols(a) ==>
                        r.value[i][j] == Sub(a[i][j], b[i][j])
  {
    if Rows(a) != Cols(b) then Err(IncompatibleSizes)
    else Ok(seq(Rows(a), i requires 0 <= i < Rows(a) =>
              seq(Cols(a), j requires 0 <= j < Cols(a) => Sub(a[i][j], b[i][j]))))
  }

  /** The running sum `sum = sum.plus(a[i][k].multiply(b[k][j]))` after the
      steps `k = 0 .. len - 1`, starting from zero. */
  function Dot(a: Grid, b: Grid, i: nat, j: nat, len: nat): Complex
    requires IsMatrix(a) && IsMatrix(b)
    requires i < Rows(a) && j < Cols(b) && len <= Cols(a) && len <= Rows(b)
  {
    if len == 0 then Zero
    else Add(Dot(a, b, i, j, len - 1), Mul(a[i][len - 1], b[len - 1][j]))
  }

  /** `multiply`: the guard compares the row count of `a` with the column
      count of `b`; each cell sums over the rows of `b`, reading that many
      columns of `a`. */
  function Multiply(a: Grid, b: Grid): (r: Result<Grid>)
    requires IsMatrix(a) && IsMatrix(b)
    requires Rows(a) == Cols(b) ==> Rows(b) <= Cols(a)
    ensures r.Err? <==> Rows(a) != Cols(b)
    ensures r.Err? ==> r.error == IncompatibleSizes
    ensures r.Ok? ==> IsGrid(r.value, Rows(a), Cols(b))
    ensures r.Ok? ==> forall i, j :: 0 <= i < Rows(a) && 0 <= j < Cols(b) ==>
                        r.value[i][j] == Dot(a, b, i, j, Rows(b))
  {
    if Rows(a) != Cols(b) then Err(IncompatibleSizes)
    else Ok(seq(Rows(a), i requires 0 <= i < Rows(a) =>
              seq(Cols(b), j requires 0 <= j < Cols(b) => Dot(a, b, i, j, Rows(b)))))
  }

  /** `transpose`: rows become columns. */
  function Transpose(a: Grid): (r: Grid)
    requires IsMatrix(a)
    ensures IsMatrix(r) && Rows(r) == Cols(a) && Cols(r) == Rows(a)
    ensures forall i, j :: 0 <= i < Rows(a) && 0 <= j < Cols(a) ==> r[j][i] == a[i][j]
  {
    seq(Cols(a), j requires 0 <= j < Cols(a) =>
      seq(Rows(a), i requires 0 <= i < Rows(a) => a[i][j]))
  }

  /** The index in the original grid of index `x` of a grid from which
      index `removed` was deleted. */
  function Skip(x: nat, removed: nat): nat {
    if x < removed then x else x + 1
  }

  /** `s` with entry `k` deleted. */
  function Without(s: seq<Complex>, k: nat): (r: seq<Complex>)
    requires k < |s|
    ensures |r| == |s| - 1
    ensures forall j {:trigger r[j]} :: 0 <= j < |r| ==> r[j] == s[Skip(j, k)]
  {
    s[..k] + s[k + 1..]
  }

  /** The first `n` rows of `a` with row `row` and column `col` deleted. */
  function MinorRows(a: Grid, row: nat, col: nat, n: nat): (r: Grid)
    requires IsSquare(a) && Rows(a) >= 2 && row < Rows(a) && col < Rows(a) && n < Rows(a)
    ensures |r| == n
    ensures forall i {:trigger r[i]} :: 0 <= i < n ==> r[i] == Without(a[Skip(i, row)], col)
  {
    if n == 0 then [] else MinorRows(a, row, col, n - 1) + [Without(a[Skip(n - 1, row)], col)]
  }

  /** `a` with row `row` and column `col` deleted. */
  function Minor(a: Grid, row: nat, col: nat): (r: Grid)
    requires IsSquare(a) && Rows(a) >= 2 && row < Rows(a) && col < Rows(a)
    ensures IsSquare(r) && Rows(r) == Rows(a) - 1
    ensures forall i, j {:trigger r[i][j]} :: 0 <= i < Rows(r) && 0 <= j < Rows(r) ==>
              r[i][j] == a[Skip(i, row)][Skip(j, col)]
  {
    MinorRows(a, row, col, Rows(a) - 1)
  }

  /** The determinant by cofactor expansion along row 0. */
  function Det(a: Grid): Complex
    requires IsSquare(a)
    decreases Rows(a), 1
  {
    if Rows(a) == 1 then a[0][0] else Expand(a, Rows(a))
  }

  /** The accumulator of the expansion after the columns `0 .. count - 1`:
      column `i` adds `det(minor) * a[0][i]` when `i` is even and subtracts
      it when `i` is odd. */
  function Expand(a: Grid, count: nat): Complex
    requires IsSquare(a) && Rows(a) >= 2 && count <= Rows(a)
    decreases Rows(a), 0, count
  {
    if count == 0 then Zero
    else
      var i := count - 1;
      var term := Mul(Det(Minor(a, 0, i)), a[0][i]);
      if i % 2 == 0 then Add(Expand(a, i), term) else Sub(Expand(a, i), term)
  }

  /** `findDeterminant`: non-square matrices are refused. */
  function Determinant(a: Grid): (r: Result<Complex>)
    requires IsMatrix(a)
    ensures r.Err? <==> Rows(a) != Cols(a)
    ensures r.Err? ==> r.error == NotSquare
  {
    if Rows(a) != Cols(a) then Err(NotSquare) else Ok(Det(a))
  }

  /** The n by n identity matrix. */
  function Identity(n: nat): (g: Grid)
    requires n >= 1
    ensures IsSquare(g) && Rows(g) == n
    ensures forall i, j :: 0 <= i < n && 0 <= j < n ==>
              g[i][j] == if i == j then FromInt(1) else Zero
  {
    seq(n, i requires 0 <= i < n => seq(n, j requires 0 <= j < n => if i == j then FromInt(1) else Zero))
  }

  /** Two grids of the same shape with the same cells are equal. */
  lemma GridsEqual(g: Grid, h: Grid, m: nat, n: nat)
    requires IsGrid(g, m, n) && IsGrid(h, m, n)
    requires forall i, j :: 0 <= i < m && 0 <= j < n ==> g[i][j] == h[i][j]
    ensures g == h
  {
    forall i | 0 <= i < m
      ensures g[i] == h[i]
    {
      assert forall j :: 0 <= j < n ==> g[i][j] == h[i][j];
    }
  }
}
