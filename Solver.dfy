/** `gaussEliminationMod2`: Gauss-Jordan elimination over GF(2) on a copy of
    the system, with row swaps, elimination above and below each pivot, a
    consistency check and a particular solution whose free unknowns are false. */
module Solver {
  import opened Wrappers
  import opened Grid
  import opened GF2

  /** The shape of the working system once columns [0, col) are processed:
      `pivotColumn[c]` is the row holding column c's pivot or -1, `colOf[p]`
      is the column whose pivot sits in row p (p < rank), each pivot column
      is a unit column, and the rows from `rank` on are zero before `col`. */
  ghost predicate Reduced(matrix: Matrix, n: nat, m: nat, pivotColumn: seq<int>, colOf: seq<nat>, rank: nat, col: nat)
  {
    && IsGrid(matrix, n, m) && |pivotColumn| == m && |colOf| == rank
    && rank <= n && col <= m
    && (forall c :: col <= c < m ==> pivotColumn[c] == -1)
    && (forall c :: 0 <= c < col ==> -1 <= pivotColumn[c] < rank)
    && (forall c :: 0 <= c < col && pivotColumn[c] >= 0 ==> colOf[pivotColumn[c]] == c)
    && (forall p :: 0 <= p < rank ==> colOf[p] < col && pivotColumn[colOf[p]] == p)
    && (forall r, c :: 0 <= r < n && 0 <= c < col && pivotColumn[c] >= 0 ==> matrix[r][c] == (r == pivotColumn[c]))
    && (forall r, c :: rank <= r < n && 0 <= c < col ==> !matrix[r][c])
  }

  /** A column with no true entry from row `rank` on stays free: the shape extends to it. */
  lemma FreeColumnStep(matrix: Matrix, n: nat, m: nat, pivotColumn: seq<int>, colOf: seq<nat>, rank: nat, col: nat)
    requires Reduced(matrix, n, m, pivotColumn, colOf, rank, col) && col < m
    requires forall r :: rank <= r < n ==> !matrix[r][col]
    ensures Reduced(matrix, n, m, pivotColumn, colOf, rank, col + 1)
  {
  }

  /** After the pivot row is swapped into row `rank` and column `col` is
      cleared from every other row, without touching the columns before
      `col`, column `col` becomes the pivot column of row `rank`. */
  lemma PivotColumnStep(matrix: Matrix, final: Matrix, n: nat, m: nat, pivotColumn: seq<int>, colOf: seq<nat>,
                        rank: nat, col: nat)
    requires Reduced(matrix, n, m, pivotColumn, colOf, rank, col) && col < m && rank < n
    requires IsGrid(final, n, m)
    requires forall r, c :: 0 <= r < n && 0 <= c < col ==> final[r][c] == matrix[r][c]
    requires final[rank][col]
    requires forall r :: 0 <= r < n && r != rank ==> !final[r][col]
    ensures Reduced(final, n, m, pivotColumn[col := rank], colOf + [col], rank + 1, col + 1)
  {
    var piv, co := pivotColumn[col := rank], colOf + [col];
    forall p | 0 <= p < rank + 1
      ensures co[p] < col + 1 && piv[co[p]] == p
    {
      if p < rank {
        assert co[p] == colOf[p];
      }
    }
  }

  /** Once every column is processed and the rows from `rank` on have false
      right-hand sides, reading each pivot column's unknown off its pivot row
      and setting the free unknowns to false solves the reduced system. */
  lemma ReducedSolution(matrix: Matrix, rhs: seq<bool>, n: nat, m: nat, pivotColumn: seq<int>, colOf: seq<nat>, rank: nat, solution: seq<bool>)
    requires Reduced(matrix, n, m, pivotColumn, colOf, rank, m) && |rhs| == n
    requires forall r :: rank <= r < n ==> !rhs[r]
    requires |solution| == m
    requires forall c :: 0 <= c < m ==> solution[c] == (pivotColumn[c] >= 0 && rhs[pivotColumn[c]])
    ensures IsSolution(matrix, rhs, solution)
  {
    forall i | 0 <= i < n
      ensures Dot(matrix[i], solution) == rhs[i]
    {
      if i < rank {
        DotSingle(matrix[i], solution, colOf[i]);
      } else {
        DotZero(matrix[i], solution);
      }
    }
  }

  /** A zero row with a true right-hand side makes a system unsolvable. */
  lemma ZeroRowInconsistent(matrix: Matrix, rhs: seq<bool>, m: nat, row: nat)
    requires row < |matrix| && |matrix[row]| == m && row < |rhs| && rhs[row]
    requires forall c :: 0 <= c < m ==> !matrix[row][c]
    ensures !Solvable(matrix, rhs, m)
  {
    forall x | |x| == m && IsSolution(matrix, rhs, x)
      ensures false
    {
      DotZero(matrix[row], x);
    }
  }

  /** The inner elimination of `gaussEliminationMod2`: adds pivot row `rank`
      to every other row with a true entry in column `col`, starting the XOR
      at `col` since the pivot row is zero before it. The solutions are
      kept, the columns before `col` are untouched, and column `col` ends
      with its only true entry in the pivot row. */
  method EliminateColumn(matrix: Matrix, rhs: seq<bool>, n: nat, m: nat, rank: nat, col: nat)
    returns (matrix': Matrix, rhs': seq<bool>)
    requires IsGrid(matrix, n, m) && |rhs| == n && rank < n && col < m
    requires matrix[rank][col] && forall c :: 0 <= c < col ==> !matrix[rank][c]
    ensures IsGrid(matrix', n, m) && |rhs'| == n
    ensures SameSolutions(matrix, rhs, matrix', rhs')
    ensures matrix'[rank] == matrix[rank] && rhs'[rank] == rhs[rank]
    ensures forall r, c :: 0 <= r < n && 0 <= c < col ==> matrix'[r][c] == matrix[r][c]
    ensures forall r :: 0 <= r < n && r != rank ==> !matrix'[r][col]
  {
    matrix', rhs' := matrix, rhs;
    for row := 0 to n
      invariant IsGrid(matrix', n, m) && |rhs'| == n
      invariant matrix'[rank] == matrix[rank] && rhs'[rank] == rhs[rank]
      invariant SameSolutions(matrix, rhs, matrix', rhs')
      invariant forall r, c :: 0 <= r < n && 0 <= c < col ==> matrix'[r][c] == matrix[r][c]
      invariant forall r :: 0 <= r < row && r != rank ==> !matrix'[r][col]
      invariant forall r :: row <= r < n ==> matrix'[r] == matrix[r]
    {
      if row != rank && matrix'[row][col] {
        ghost var before, rhsBefore := matrix', rhs';
        var k := col;
        while k < m
          invariant col <= k <= m
          invariant |matrix'| == n && |matrix'[row]| == m
          invariant forall r :: 0 <= r < n && r != row ==> matrix'[r] == before[r]
          invariant forall j :: 0 <= j < m ==>
            matrix'[row][j] == if col <= j < k then before[row][j] != before[rank][j] else before[row][j]
        {
          matrix' := matrix'[row := matrix'[row][k := matrix'[row][k] != matrix'[rank][k]]];
          k := k + 1;
        }
        assert matrix'[row] == XorRows(before[row], before[rank]);
        assert matrix' == before[row := XorRows(before[row], before[rank])];
        rhs' := rhs'[row := rhs'[row] != rhs'[rank]];
        AddRow(before, rhsBefore, rank, row);
      }
    }
  }

  /** Solves A x = b over GF(2). Returns Some(x) with x a solution whose free
      unknowns are false, or None (the source's empty vector) exactly when
      the system has no solution. */
  method GaussEliminationMod2(A: Matrix, b: seq<bool>) returns (result: Option<seq<bool>>)
    requires |A| > 0 && IsGrid(A, |A|, |A[0]|) && |b| == |A|
    ensures result.Some? ==> |result.value| == |A[0]| && IsSolution(A, b, result.value)
    ensures result.None? <==> !Solvable(A, b, |A[0]|)
  {
    var n := |A|;
    var m := |A[0]|;
    var matrix := A;
    var rhs := b;
    var pivotColumn := seq(m, _ => -1);
    var solution := seq(m, _ => false);
    var rank := 0;
    ghost var colOf: seq<nat> := [];

    // Forward elimination
    for col := 0 to m
      invariant |rhs| == n && rank <= col
      invariant Reduced(matrix, n, m, pivotColumn, colOf, rank, col)
      invariant SameSolutions(A, b, matrix, rhs)
    {
      // Find a row at or below `rank` with a true entry in this column
      var pivotRow := -1;
      var row := rank;
      while row < n
        invariant rank <= row <= n
        invariant pivotRow == -1
        invariant forall r :: rank <= r < row ==> !matrix[r][col]
      {
        if matrix[row][col] {
          pivotRow := row;
          break;
        }
        row := row + 1;
      }

      // No pivot: the column is free
      if pivotRow == -1 {
        FreeColumnStep(matrix, n, m, pivotColumn, colOf, rank, col);
        continue;
      }

      // Bring the pivot row up to position `rank`
      ghost var reduced := matrix;
      SwapRows(matrix, rhs, rank, pivotRow);
      matrix := matrix[rank := matrix[pivotRow]][pivotRow := matrix[rank]];
      rhs := rhs[rank := rhs[pivotRow]][pivotRow := rhs[rank]];

      // Both swapped rows were zero before `col`, so those columns are unchanged
      assert forall r, c :: 0 <= r < n && 0 <= c < col ==> matrix[r][c] == reduced[r][c];

      // Eliminate column `col` from every other row
      matrix, rhs := EliminateColumn(matrix, rhs, n, m, rank, col);
      assert SameSolutions(A, b, matrix, rhs);
      PivotColumnStep(reduced, matrix, n, m, pivotColumn, colOf, rank, col);
      pivotColumn := pivotColumn[col := rank];
      rank := rank + 1;
      colOf := colOf + [col];
    }

    // Check for inconsistency: a zero row with a true right-hand side
    for row := rank to n
      invariant forall r :: rank <= r < row ==> !rhs[r]
    {
      if rhs[row] {
        ZeroRowInconsistent(matrix, rhs, m, row);
        return None;
      }
    }

    // Back-substitution: pivot unknowns from their rows, free unknowns false
    for col := 0 to m
      invariant |solution| == m
      invariant forall c :: 0 <= c < col ==> solution[c] == (pivotColumn[c] >= 0 && rhs[pivotColumn[c]])
    {
      if pivotColumn[col] != -1 {
        solution := solution[col := rhs[pivotColumn[col]]];
      } else {
        solution := solution[col := false];
      }
    }

    ReducedSolution(matrix, rhs, n, m, pivotColumn, colOf, rank, solution);
    return Some(solution);
  }
}
