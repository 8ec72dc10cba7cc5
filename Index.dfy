/** Index mapper: converts between grid coordinates (row, col) of a grid
    `dim` cells wide and the row-major flattened index row * dim + col. */
module Index {

  /** `convertToLowerDim`: the (row, col) coordinates of a flattened index:
      a column inside the grid's width whose row-major position is the index. */
  function ConvertToLowerDim(upperDim: nat, dim: nat): (cell: (nat, nat))
    requires dim > 0
    ensures cell.1 < dim && cell.0 * dim + cell.1 == upperDim
  {
    (upperDim / dim, upperDim % dim)
  }

  /** `convertToUpperDim`: the flattened index of cell (row, col). For a
      column inside the grid's width, unflattening it gives the cell back. */
  function ConvertToUpperDim(row: nat, col: nat, dim: nat): (upperDim: nat)
    ensures col < dim ==> ConvertToLowerDim(upperDim, dim) == (row, col)
  {
    RowMajorUnique(row, col, dim);
    row * dim + col
  }

  /** Division by the width recovers row and column of a row-major index. */
  lemma RowMajorUnique(row: nat, col: nat, dim: nat)
    ensures col < dim ==> (row * dim + col) / dim == row && (row * dim + col) % dim == col
  {
    if col < dim {
      var i := row * dim + col;
      var q, r := i / dim, i % dim;
      assert i == q * dim + r;
      assert (row + 1) * dim == row * dim + dim;
      assert (q + 1) * dim == q * dim + dim;
      if q > row {
        MulMonotone(row + 1, q, dim);
      } else if q < row {
        MulMonotone(q + 1, row, dim);
      }
    }
  }

  /** Multiplication by a natural number is monotone. */
  lemma {:induction false} MulMonotone(a: nat, b: nat, d: nat)
    requires a <= b
    ensures a * d <= b * d
  {
    if a < b {
      MulMonotone(a, b - 1, d);
      assert b * d == (b - 1) * d + d;
    }
  }

  /** Unflattening an index of a rows x dim grid lands inside the grid,
      and flattening the coordinates gives back the index. */
  lemma LowerDimRoundTrip(upperDim: nat, rows: nat, dim: nat)
    requires dim > 0 && upperDim < rows * dim
    ensures ConvertToLowerDim(upperDim, dim).0 < rows
    ensures ConvertToLowerDim(upperDim, dim).1 < dim
    ensures ConvertToUpperDim(ConvertToLowerDim(upperDim, dim).0, ConvertToLowerDim(upperDim, dim).1, dim) == upperDim
  {
    var q := upperDim / dim;
    if q >= rows {
      MulMonotone(rows, q, dim);
    }
  }

  /** Every cell of a rows x dim grid flattens to an index below rows * dim. */
  lemma UpperDimInRange(row: nat, col: nat, rows: nat, dim: nat)
    requires row < rows && col < dim
    ensures ConvertToUpperDim(row, col, dim) < rows * dim
  {
    MulMonotone(row + 1, rows, dim);
    assert (row + 1) * dim == row * dim + dim;
  }

  /** Cells of one row are laid out consecutively: the cell after the last
      cell of row `row` is the first cell of row `row + 1`. */
  lemma NextRowStart(row: nat, dim: nat)
    ensures ConvertToUpperDim(row, dim, dim) == ConvertToUpperDim(row + 1, 0, dim)
  {
  }
}
