/** The unlocking procedure: read the box, put it in a shape with no more
    rows than columns, build and solve the GF(2) system, and replay the
    solution as toggles on the box. Any box its own shuffle produced ends
    unlocked. */
module Unlock {
  import opened Wrappers
  import opened Index
  import opened Grid
  import opened GF2
  import opened LinearSystem
  import opened Solver
  import opened Box

  /** `transposeMatrix`: row i of the input becomes column i of the result;
      an empty input gives an empty result. */
  method TransposeMatrix(matrix: Grid) returns (transposed: Grid)
    requires Rectangular(matrix)
    ensures transposed == Transpose(matrix)
  {
    if |matrix| == 0 {
      return [];
    }
    var rows := |matrix|;
    var cols := |matrix[0]|;
    transposed := seq(cols, _ => seq(rows, _ => false));
    for i := 0 to rows
      invariant IsGrid(transposed, cols, rows)
      invariant forall j, k {:trigger transposed[j][k]} :: 0 <= j < cols && 0 <= k < rows ==>
        transposed[j][k] == (k < i && matrix[k][j])
    {
      for j := 0 to cols
        invariant IsGrid(transposed, cols, rows)
        invariant forall j', k {:trigger transposed[j'][k]} :: 0 <= j' < cols && 0 <= k < rows && k != i ==>
          transposed[j'][k] == (k < i && matrix[k][j'])
        invariant forall j' {:trigger transposed[j'][i]} :: 0 <= j' < cols ==>
          transposed[j'][i] == (j' < j && matrix[i][j'])
      {
        transposed := transposed[j := transposed[j][i := matrix[i][j]]];
      }
    }
    assert forall j :: 0 <= j < cols ==> transposed[j] == Transpose(matrix)[j];
  }

  /** The box cell toggled for unknown u of a system `cols` wide: the cell
      `convertToLowerDim(u, cols)`, with its coordinates exchanged when the
      system was built on the transposed box. */
  function MoveAt(u: nat, cols: nat, isTransposed: bool): (m: Move)
    requires cols > 0
    ensures var (r, c) := if isTransposed then (m.1, m.0) else m;
            c < cols && ConvertToUpperDim(r, c, cols) == u
  {
    var coord := ConvertToLowerDim(u, cols);
    if isTransposed then (coord.1, coord.0) else coord
  }

  /** The toggles `openBox` makes for a solution: one for every true unknown,
      in increasing order of the unknowns. */
  function Replay(solution: seq<bool>, cols: nat, isTransposed: bool): seq<Move>
    requires cols > 0
  {
    if |solution| == 0 then []
    else
      var n := |solution| - 1;
      Replay(solution[..n], cols, isTransposed) + (if solution[n] then [MoveAt(n, cols, isTransposed)] else [])
  }

  /** A box cell is flipped by the replayed toggles exactly as often, modulo
      2, as the GF(2) inner product of the solution with the row listing
      which unknowns' toggles reach that cell. */
  lemma {:induction false} ReplayParity(solution: seq<bool>, row: seq<bool>, cols: nat, isTransposed: bool, r: nat, c: nat)
    requires cols > 0 && |row| == |solution|
    requires forall j :: 0 <= j < |row| ==> row[j] == Affects(MoveAt(j, cols, isTransposed), r, c)
    ensures Parity(Replay(solution, cols, isTransposed), r, c) == Dot(row, solution)
  {
    if |solution| > 0 {
      var n := |solution| - 1;
      var prev := Replay(solution[..n], cols, isTransposed);
      ReplayParity(solution[..n], row[..n], cols, isTransposed, r, c);
      assert Dot(row, solution) == (Dot(row[..n], solution[..n]) != (row[n] && solution[n]));
      if solution[n] {
        var m := MoveAt(n, cols, isTransposed);
        assert row[n] == Affects(m, r, c);
        ParityAppend(prev, [m], r, c);
        ParitySingle(m, r, c);
      } else {
        assert Replay(solution, cols, isTransposed) == prev + [] == prev;
      }
    }
  }

  /** Replaying one more unknown adds its toggle when it is true. */
  lemma ReplayStep(grid: Grid, solution: seq<bool>, u: nat, cols: nat, isTransposed: bool)
    requires cols > 0 && u < |solution|
    ensures var before := ApplyMoves(grid, Replay(solution[..u], cols, isTransposed));
            var m := MoveAt(u, cols, isTransposed);
            ApplyMoves(grid, Replay(solution[..u + 1], cols, isTransposed))
              == if solution[u] then Toggled(before, m.0, m.1) else before
  {
    var done := Replay(solution[..u], cols, isTransposed);
    assert solution[..u + 1][..u] == solution[..u];
    if solution[u] {
      assert (done + [MoveAt(u, cols, isTransposed)])[..|done|] == done;
    } else {
      assert done + [] == done;
    }
  }

  /** The equation of box cell (r, c), read in the system's orientation, has
      a true coefficient exactly for the unknowns whose replayed toggle
      reaches that cell. */
  lemma EquationOfCell(rows: nat, cols: nat, isTransposed: bool, r: nat, c: nat)
    requires (if isTransposed then c else r) < rows && (if isTransposed then r else c) < cols
    ensures var i := ConvertToUpperDim(if isTransposed then c else r, if isTransposed then r else c, cols);
            i < rows * cols
            && forall j :: 0 <= j < rows * cols ==>
                 CoefficientMatrix(rows, cols)[i][j] == Affects(MoveAt(j, cols, isTransposed), r, c)
  {
    var r', c' := if isTransposed then c else r, if isTransposed then r else c;
    UpperDimInRange(r', c', rows, cols);
  }

  /** Replaying a solution of the system built from the box's grid (or from
      its transpose, with coordinates exchanged back) unlocks cell (r, c). */
  lemma ReplayUnlocksCell(grid: Grid, ySize: nat, xSize: nat, isTransposed: bool, rows: nat, cols: nat,
                          solution: seq<bool>, r: nat, c: nat)
    requires IsGrid(grid, ySize, xSize) && r < ySize && c < xSize
    requires rows == (if isTransposed then xSize else ySize) && cols == (if isTransposed then ySize else xSize)
    requires |solution| == rows * cols
    requires IsSolution(CoefficientMatrix(rows, cols), Flatten(if isTransposed then Transpose(grid) else grid), solution)
    ensures !ApplyMoves(grid, Replay(solution, cols, isTransposed))[r][c]
  {
    var state := if isTransposed then Transpose(grid) else grid;
    var A := CoefficientMatrix(rows, cols);
    var r' := if isTransposed then c else r;
    var c' := if isTransposed then r else c;
    var i := ConvertToUpperDim(r', c', cols);
    assert IsGrid(state, rows, cols);
    FlattenAt(state, rows, cols, r', c');
    EquationOfCell(rows, cols, isTransposed, r, c);
    ReplayParity(solution, A[i], cols, isTransposed, r, c);
    NetEffect(grid, Replay(solution, cols, isTransposed), r, c);
  }

  /** Replaying a solution of the system built from the box's grid (or from
      its transpose, with coordinates exchanged back) unlocks every cell. */
  lemma ReplayUnlocks(grid: Grid, ySize: nat, xSize: nat, isTransposed: bool, rows: nat, cols: nat, solution: seq<bool>)
    requires IsGrid(grid, ySize, xSize) && ySize > 0 && xSize > 0
    requires rows == (if isTransposed then xSize else ySize) && cols == (if isTransposed then ySize else xSize)
    requires |solution| == rows * cols
    requires IsSolution(CoefficientMatrix(rows, cols), Flatten(if isTransposed then Transpose(grid) else grid), solution)
    ensures ApplyMoves(grid, Replay(solution, cols, isTransposed)) == AllFalse(ySize, xSize)
  {
    var h := ApplyMoves(grid, Replay(solution, cols, isTransposed));
    forall r, c | 0 <= r < ySize && 0 <= c < xSize
      ensures !h[r][c]
    {
      ReplayUnlocksCell(grid, ySize, xSize, isTransposed, rows, cols, solution, r, c);
    }
    assert forall r :: 0 <= r < ySize ==> h[r] == AllFalse(ySize, xSize)[r];
  }

  /** The system `openBox` builds for a shuffled y x x box, on the grid
      itself or on its transpose, is solvable. */
  lemma ShuffledSystemSolvable(y: nat, x: nat, shuffleMoves: seq<Move>, isTransposed: bool)
    requires y >= 1 && x >= 1 && InRange(shuffleMoves, y, x)
    ensures var grid := ApplyMoves(AllFalse(y, x), shuffleMoves);
            var rows := if isTransposed then x else y;
            var cols := if isTransposed then y else x;
            && Rectangular(grid)
            && IsGrid(if isTransposed then Transpose(grid) else grid, rows, cols)
            && rows * cols > 0
            && Solvable(CoefficientMatrix(rows, cols), Flatten(if isTransposed then Transpose(grid) else grid), rows * cols)
  {
    var grid := ApplyMoves(AllFalse(y, x), shuffleMoves);
    UpperDimInRange(0, 0, y, x);
    UpperDimInRange(0, 0, x, y);
    TransposeApplyMoves(AllFalse(y, x), shuffleMoves);
    if isTransposed {
      TransposeAllFalse(y, x);
      var swapped := SwapMoves(shuffleMoves);
      assert InRange(swapped, x, y);
      ReachableSolvable(x, y, swapped);
      assert |ToggleParities(swapped, x, y)| == x * y;
    } else {
      ReachableSolvable(y, x, shuffleMoves);
      assert |ToggleParities(shuffleMoves, y, x)| == y * x;
    }
  }

  /** The toggling loop of `openBox`: for every true unknown u, toggles the
      box at `convertToLowerDim(u, cols)`, coordinates exchanged when the
      system was built on the transposed box. */
  method ApplySolution(box: SecureBox, solution: seq<bool>, rows: nat, cols: nat, isTransposed: bool)
    requires box.Valid() && cols > 0 && |solution| == rows * cols
    requires box.ySize == (if isTransposed then cols else rows) && box.xSize == (if isTransposed then rows else cols)
    modifies box
    ensures box.Valid() && box.box == ApplyMoves(old(box.box), Replay(solution, cols, isTransposed))
  {
    for upperDim := 0 to |solution|
      invariant box.Valid()
      invariant box.box == ApplyMoves(old(box.box), Replay(solution[..upperDim], cols, isTransposed))
    {
      ReplayStep(old(box.box), solution, upperDim, cols, isTransposed);
      if solution[upperDim] {
        var toggleCoord := ConvertToLowerDim(upperDim, cols);
        LowerDimRoundTrip(upperDim, rows, cols);
        if !isTransposed {
          box.Toggle(toggleCoord.0, toggleCoord.1);
        } else {
          box.Toggle(toggleCoord.1, toggleCoord.0);
        }
      }
    }
    assert solution[..|solution|] == solution;
  }

  /** `openBox`: builds a y x x box shuffled by `shuffleMoves`, unlocks it
      and reports whether it is still locked, which it never is. */
  method OpenBox(y: nat, x: nat, shuffleMoves: seq<Move>) returns (locked: bool)
    requires y >= 1 && x >= 1
    requires |shuffleMoves| < 1000 && InRange(shuffleMoves, y, x)
    ensures !locked
  {
    var box := new SecureBox(y, x, shuffleMoves);
    ghost var initial := box.box;

    var state := box.GetState();
    var rows, cols := y, x;
    var isTransposed := false;
    ShuffledSystemSolvable(y, x, shuffleMoves, y > x);
    if rows > cols {
      rows, cols := cols, rows;
      isTransposed := true;
      state := TransposeMatrix(state);
    }

    var generatedMatrix := GenerateCoefficientMatrix(state, rows, cols);
    var generatedVector := GenerateCoefficientVector(state, rows, cols);
    var result := GaussEliminationMod2(generatedMatrix, generatedVector);
    var solution := if result.Some? then result.value else [];
    assert |solution| == rows * cols;

    ApplySolution(box, solution, rows, cols, isTransposed);
    ReplayUnlocks(initial, y, x, isTransposed, rows, cols, solution);
    AllFalseUnlocked(y, x);

    locked := box.IsLocked();
  }
}
