/** Coefficient builder: the GF(2) system whose unknown j says whether the
    cell with flattened index j is toggled and whose equation i says that
    the toggles affecting cell i must flip it exactly when it is locked. */
module LinearSystem {
  import opened Index
  import opened Grid
  import opened GF2

  /** Entry [i][j] of the coefficient matrix: toggle variable j affects cell
      equation i, both flattened in a grid `cols` wide. */
  predicate SharesLine(i: nat, j: nat, cols: nat)
    requires cols > 0
  {
    var cell := ConvertToLowerDim(i, cols);
    Affects(ConvertToLowerDim(j, cols), cell.0, cell.1)
  }

  /** The (rows * cols) x (rows * cols) coefficient matrix of a rows x cols box. */
  function CoefficientMatrix(rows: nat, cols: nat): Matrix
  {
    var size := rows * cols;
    seq(size, i requires 0 <= i < size =>
      seq(size, j requires 0 <= j < size => cols > 0 && SharesLine(i, j, cols)))
  }

  /** A grid laid out row-major as one vector: its rows one after another. */
  function Flatten(g: Grid): seq<bool>
  {
    if |g| == 0 then [] else Flatten(g[..|g| - 1]) + g[|g| - 1]
  }

  /** A rows x cols grid flattens to rows * cols entries. */
  lemma {:induction false} FlattenLength(g: Grid, rows: nat, cols: nat)
    requires IsGrid(g, rows, cols)
    ensures |Flatten(g)| == rows * cols
  {
    if rows > 0 {
      FlattenLength(g[..rows - 1], rows - 1, cols);
      assert (rows - 1) * cols + cols == rows * cols;
    }
  }

  /** Cell (r, c) sits at the flattened index `convertToUpperDim(r, c, cols)`. */
  lemma {:induction false} FlattenAt(g: Grid, rows: nat, cols: nat, r: nat, c: nat)
    requires IsGrid(g, rows, cols) && r < rows && c < cols
    ensures ConvertToUpperDim(r, c, cols) < |Flatten(g)|
    ensures Flatten(g)[ConvertToUpperDim(r, c, cols)] == g[r][c]
  {
    FlattenLength(g[..rows - 1], rows - 1, cols);
    FlattenLength(g, rows, cols);
    UpperDimInRange(r, c, rows, cols);
    if r < rows - 1 {
      FlattenAt(g[..rows - 1], rows - 1, cols, r, c);
      UpperDimInRange(r, c, rows - 1, cols);
    }
  }

  /** Entry i of the flattened grid is the cell `convertToLowerDim(i, cols)`. */
  lemma FlattenAtIndex(g: Grid, rows: nat, cols: nat, i: nat)
    requires IsGrid(g, rows, cols) && i < rows * cols
    ensures cols > 0 && ConvertToLowerDim(i, cols).0 < rows && ConvertToLowerDim(i, cols).1 < cols
    ensures i < |Flatten(g)| && Flatten(g)[i] == g[ConvertToLowerDim(i, cols).0][ConvertToLowerDim(i, cols).1]
  {
    assert cols > 0;
    LowerDimRoundTrip(i, rows, cols);
    FlattenAt(g, rows, cols, ConvertToLowerDim(i, cols).0, ConvertToLowerDim(i, cols).1);
  }

  /** `generateCoefficientMatrix`: fills the matrix entry by entry. The grid
      state is accepted and ignored, as in the source: the matrix depends
      only on the dimensions. */
  method GenerateCoefficientMatrix(state: Grid, rows: nat, cols: nat) returns (result: Matrix)
    ensures IsGrid(result, rows * cols, rows * cols)
    ensures forall i, j :: 0 <= i < rows * cols && 0 <= j < rows * cols ==>
      cols > 0 && (result[i][j] <==> i / cols == j / cols || i % cols == j % cols)
    ensures result == CoefficientMatrix(rows, cols)
  {
    var size := rows * cols;
    ghost var spec := CoefficientMatrix(rows, cols);
    result := seq(size, _ => seq(size, _ => false));
    for rowUpper := 0 to size
      invariant IsGrid(result, size, size)
      invariant forall i :: 0 <= i < rowUpper ==> result[i] == spec[i]
    {
      for colUpper := 0 to size
        invariant IsGrid(result, size, size)
        invariant forall i :: 0 <= i < rowUpper ==> result[i] == spec[i]
        invariant forall j :: 0 <= j < colUpper ==> result[rowUpper][j] == spec[rowUpper][j]
      {
        assert cols > 0;
        var coeffPos := ConvertToLowerDim(colUpper, cols);
        var resultPos := ConvertToLowerDim(rowUpper, cols);
        result := result[rowUpper := result[rowUpper][colUpper := coeffPos.0 == resultPos.0 || coeffPos.1 == resultPos.1]];
      }
      assert result[rowUpper] == spec[rowUpper];
    }
  }

  /** `generateCoefficientVector`: the right-hand side is the grid itself,
      flattened row-major. */
  method GenerateCoefficientVector(state: Grid, rows: nat, cols: nat) returns (result: seq<bool>)
    requires IsGrid(state, rows, cols)
    ensures |result| == rows * cols
    ensures forall r, c :: 0 <= r < rows && 0 <= c < cols ==>
      ConvertToUpperDim(r, c, cols) < |result| && result[ConvertToUpperDim(r, c, cols)] == state[r][c]
    ensures result == Flatten(state)
  {
    result := seq(rows * cols, _ => false);
    for row := 0 to rows
      invariant |result| == rows * cols
      invariant ConvertToUpperDim(row, 0, cols) <= rows * cols
      invariant result[..ConvertToUpperDim(row, 0, cols)] == Flatten(state[..row])
    {
      for col := 0 to cols
        invariant |result| == rows * cols
        invariant ConvertToUpperDim(row, col, cols) <= rows * cols
        invariant result[..ConvertToUpperDim(row, col, cols)] == Flatten(state[..row]) + state[row][..col]
      {
        var pos := ConvertToUpperDim(row, col, cols);
        UpperDimInRange(row, col, rows, cols);
        ghost var written := result[..pos];
        result := result[pos := state[row][col]];
        assert result[..pos + 1] == written + [state[row][col]];
        assert state[row][..col + 1] == state[row][..col] + [state[row][col]];
      }
      NextRowStart(row, cols);
      assert state[..row + 1][..row] == state[..row];
      assert state[row][..cols] == state[row];
    }
    assert state[..rows] == state;
    assert result[..rows * cols] == result;
    forall r, c | 0 <= r < rows && 0 <= c < cols
      ensures ConvertToUpperDim(r, c, cols) < |result| && result[ConvertToUpperDim(r, c, cols)] == state[r][c]
    {
      FlattenAt(state, rows, cols, r, c);
    }
  }

  /** The coefficient matrix is symmetric: toggle j affects cell i iff toggle i affects cell j. */
  lemma CoefficientMatrixSymmetric(rows: nat, cols: nat, i: nat, j: nat)
    requires i < rows * cols && j < rows * cols
    ensures CoefficientMatrix(rows, cols)[i][j] == CoefficientMatrix(rows, cols)[j][i]
  {
  }

  /** Column j of the coefficient matrix is the flattened effect of toggling
      cell j on an all-unlocked grid. */
  lemma CoefficientColumnIsToggle(rows: nat, cols: nat, i: nat, j: nat)
    requires i < rows * cols && j < rows * cols
    ensures cols > 0 && i < |Flatten(Toggled(AllFalse(rows, cols), ConvertToLowerDim(j, cols).0, ConvertToLowerDim(j, cols).1))|
    ensures CoefficientMatrix(rows, cols)[i][j]
         == Flatten(Toggled(AllFalse(rows, cols), ConvertToLowerDim(j, cols).0, ConvertToLowerDim(j, cols).1))[i]
  {
    assert cols > 0;
    var m := ConvertToLowerDim(j, cols);
    FlattenAtIndex(Toggled(AllFalse(rows, cols), m.0, m.1), rows, cols, i);
  }

  /** The parity of the number of toggles made at each flattened cell. */
  function ToggleParities(ms: seq<Move>, rows: nat, cols: nat): (x: seq<bool>)
    ensures |x| == rows * cols
  {
    if |ms| == 0 then seq(rows * cols, _ => false)
    else
      var x := ToggleParities(ms[..|ms| - 1], rows, cols);
      var last := ms[|ms| - 1];
      var k := ConvertToUpperDim(last.0, last.1, cols);
      if k < |x| then x[k := !x[k]] else x
  }

  /** A grid reached from the all-unlocked grid by toggles gives a solvable
      system: the parities of those toggles solve it. */
  lemma {:induction false} ReachableSolvable(rows: nat, cols: nat, ms: seq<Move>)
    requires InRange(ms, rows, cols)
    ensures IsSolution(CoefficientMatrix(rows, cols), Flatten(ApplyMoves(AllFalse(rows, cols), ms)),
                       ToggleParities(ms, rows, cols))
  {
    var A := CoefficientMatrix(rows, cols);
    var size := rows * cols;
    var x := ToggleParities(ms, rows, cols);
    var b := Flatten(ApplyMoves(AllFalse(rows, cols), ms));
    FlattenLength(ApplyMoves(AllFalse(rows, cols), ms), rows, cols);
    if |ms| == 0 {
      forall i | 0 <= i < size
        ensures Dot(A[i], x) == b[i]
      {
        DotZero(A[i], x);
        FlattenAtIndex(AllFalse(rows, cols), rows, cols, i);
      }
    } else {
      var prefix := ms[..|ms| - 1];
      var last := ms[|ms| - 1];
      assert InRange(prefix, rows, cols);
      ReachableSolvable(rows, cols, prefix);
      var x0 := ToggleParities(prefix, rows, cols);
      var s0 := ApplyMoves(AllFalse(rows, cols), prefix);
      var b0 := Flatten(s0);
      FlattenLength(s0, rows, cols);
      var k := ConvertToUpperDim(last.0, last.1, cols);
      UpperDimInRange(last.0, last.1, rows, cols);
      assert x == x0[k := !x0[k]];
      forall i | 0 <= i < size
        ensures Dot(A[i], x) == b[i]
      {
        DotFlip(A[i], x0, k);
        FlattenAtIndex(s0, rows, cols, i);
        FlattenAtIndex(ApplyMoves(AllFalse(rows, cols), ms), rows, cols, i);
      }
    }
  }
}
