# Unlocking the secure box, verified

The program solves a puzzle on a `SecureBox`, a `y x x` grid of lock bits
where true means locked. `toggle(y, x)` negates every cell in row `y` or
column `x`. The box starts from all-unlocked, and its constructor shuffles
it with random toggles. `openBox` reads the grid and turns the puzzle into
a linear system over GF(2). There is one unknown per cell, saying whether to
toggle there, and one equation per cell, saying that the toggles reaching
that cell must flip it exactly when it is locked. `openBox` solves the
system by Gauss-Jordan elimination, replays the solution as toggles and
reports whether the box is still locked. When the box has more rows than
columns, it solves the transposed puzzle and exchanges the coordinates back.

The model has one module per part of the program:

- `Index`: the flattening of a cell `(row, col)` to `row * dim + col` and
  back.
- `Grid`: the grid as a value, the effect of one toggle, and the algebra of
  toggles. Each toggle is self-inverse, any two commute, and a sequence of
  toggles flips each cell once per toggle sharing its row or column.
  Transposition is also here.
- `Box`: the `SecureBox` class. Its grid field is updated in place by
  `Toggle`.
- `GF2`: inner products over GF(2), solution sets, and the two row
  operations that keep the solution set.
- `LinearSystem`: the coefficient matrix and vector the program builds. It
  also proves that every grid reached by toggles gives a solvable system.
- `Solver`: `gaussEliminationMod2`, an imperative method proved sound and
  complete. Its loop invariant says that on the processed columns every
  pivot column is a unit column, true only in its pivot row, and every row
  from `rank` on is zero. That includes the fact that the pivot row is zero
  before the current column, which is what lets the XOR loop start at that
  column.
- `Unlock`: `transposeMatrix` and `openBox`. `openBox` is proved to
  always return false, meaning unlocked.

Every `std::vector` is a value here: a `seq` local that is reassigned
element by element, or the `box` field of the class.

## Model

| member | source | states |
|---|---|---|
| Index.ConvertToLowerDim | main.cpp:154-157 | for `dim > 0`, the pair is a column below `dim` and a row such that `row * dim + col` is the index again |
| Index.ConvertToUpperDim | main.cpp:152 | for `col < dim`, `convertToLowerDim` of the flattened index gives `(row, col)` back |
| Index.RowMajorUnique | main.cpp:152-157 | for `col < dim`, dividing `row * dim + col` by `dim` gives quotient `row` and remainder `col` |
| Index.LowerDimRoundTrip | main.cpp:152-157 | an index below `rows * dim` splits into a row below `rows` and a column below `dim`, and flattening them gives the index back |
| Index.UpperDimInRange | main.cpp:152 | a cell of a `rows x dim` grid flattens to an index below `rows * dim` |
| Grid.AllFalseUnlocked | main.cpp:47-54 | no cell of the all-unlocked grid the box starts from is locked |
| Grid.ToggleTwice | main.cpp:63-70 | toggling the same cell twice restores the grid exactly |
| Grid.ToggleCommute | main.cpp:63-70 | two toggles give the same grid in either order |
| Grid.NetEffect | main.cpp:63-70 | after a sequence of toggles, a cell equals its old value XOR the parity of the toggles sharing its row or column |
| Grid.ParityPermutation | main.cpp:63-70 | that parity depends only on the multiset of toggles, not on their order |
| Grid.ApplyMovesPermutation | main.cpp:63-70 | any reordering of a sequence of toggles gives the same grid |
| Grid.TransposeInvolutive | main.cpp:276-294 | transposing a non-empty rectangular grid twice gives it back |
| Grid.TransposeToggle | main.cpp:303-308 | toggling `(y, x)` and then transposing equals transposing and then toggling `(x, y)` |
| Grid.TransposeApplyMoves | main.cpp:303-308 | the transpose of a toggled grid is the transposed grid toggled with every move's coordinates exchanged |
| Grid.TransposeAllFalse | main.cpp:303-308 | the transpose of the all-unlocked `rows x cols` grid is the all-unlocked `cols x rows` grid |
| Box.SecureBox.constructor | main.cpp:47-54 | the new box is `y x x` and holds the all-unlocked grid after the shuffle's toggles |
| Box.SecureBox.Shuffle | main.cpp:104-108 | the grid becomes the old grid with the given toggles applied in order |
| Box.SecureBox.Toggle | main.cpp:63-70 | a cell is negated iff it lies in row `y` or column `x`, so `(y, x)` ends flipped once, and every other cell keeps its value |
| Box.SecureBox.IsLocked | main.cpp:78-86 | the result is true iff some cell is locked; the method changes nothing |
| Box.SecureBox.GetState | main.cpp:93 | returns a copy of the current grid, of the box's dimensions |
| GF2.SwapRows | main.cpp:226-228 | exchanging two equations of a system keeps its solution set |
| GF2.AddRow | main.cpp:236-243 | adding one equation to another, matrix row and right-hand side alike, keeps the solution set |
| GF2.DotFlip | main.cpp:104-108 | the step lemma for one more shuffle toggle (each `toggle` of main.cpp:63-70): flipping one entry of the parity vector flips an equation's value iff the equation has that unknown |
| LinearSystem.GenerateCoefficientMatrix | main.cpp:159-178 | a `(rows*cols)` square matrix whose entry `[i][j]` is true iff `i / cols == j / cols` or `i % cols == j % cols`; the grid argument plays no part |
| LinearSystem.CoefficientMatrixSymmetric | main.cpp:169-173 | the coefficient matrix is symmetric |
| LinearSystem.CoefficientColumnIsToggle | main.cpp:169-173 | column `j` is the flattened effect of `toggle(j / cols, j % cols)` on the all-unlocked grid |
| LinearSystem.GenerateCoefficientVector | main.cpp:180-195 | a vector of `rows*cols` entries with `result[row*cols + col] == state[row][col]`; it is the grid flattened row by row |
| LinearSystem.FlattenLength | main.cpp:183 | a `rows x cols` grid flattens to `rows * cols` entries |
| LinearSystem.FlattenAt | main.cpp:185-192 | cell `(r, c)` sits at flattened index `convertToUpperDim(r, c, cols)` |
| LinearSystem.FlattenAtIndex | main.cpp:185-192 | flattened entry `i` is the cell `convertToLowerDim(i, cols)` |
| LinearSystem.ReachableSolvable | main.cpp:104-108 | for a grid reached from all-unlocked by in-range toggles, the parities of those toggles solve the coefficient system |
| Solver.FreeColumnStep | main.cpp:222-224 | a column with no true entry from row `rank` on stays a free column of the reduced form |
| Solver.EliminateColumn | main.cpp:233-244 | after XORing the pivot row into every other row with a true entry in column `col`, starting at `col`, the solution set is kept, the earlier columns are untouched, the pivot row is unchanged, and column `col` is true only in the pivot row |
| Solver.PivotColumnStep | main.cpp:226-245 | after the swap and the elimination, column `col` becomes the unit pivot column of row `rank` and the reduced form extends to it |
| Solver.ZeroRowInconsistent | main.cpp:248-256 | a zero row with a true right-hand side makes the system unsolvable |
| Solver.ReducedSolution | main.cpp:258-271 | in the reduced form with zero right-hand sides from `rank` on, pivot unknowns read from their rows and free unknowns set to false solve the system |
| Solver.GaussEliminationMod2 | main.cpp:197-274 | a returned vector has one entry per unknown and satisfies every original equation over GF(2); no vector (the source's empty vector) is returned exactly when the system has no solution |
| Unlock.TransposeMatrix | main.cpp:276-294 | the result is the transpose: entry `[j][i]` is `matrix[i][j]`, and the empty grid gives the empty grid |
| Unlock.MoveAt | main.cpp:320-328 | the toggle made for unknown `u`, with its coordinates exchanged back when transposed, is a cell with a column below `cols` that flattens to `u` |
| Unlock.EquationOfCell | main.cpp:169-173 | the equation of box cell `(r, c)`, read in the system's orientation, has a true coefficient exactly for the unknowns whose replayed toggle reaches that cell |
| Unlock.ReplayParity | main.cpp:316-331 | the replayed toggles flip a box cell as often, modulo 2, as the GF(2) inner product of the solution with that cell's equation |
| Unlock.ReplayStep | main.cpp:316-331 | replaying one more unknown applies its toggle iff its bit is true |
| Unlock.ApplySolution | main.cpp:316-331 | the box ends as the old grid with the toggle at `convertToLowerDim(u, cols)` applied for each true bit `u`, in increasing order of `u`, with coordinates exchanged when transposed |
| Unlock.ReplayUnlocksCell | main.cpp:316-331 | replaying a solution of the system built from the grid, or from its transpose, unlocks cell `(r, c)` |
| Unlock.ReplayUnlocks | main.cpp:316-331 | replaying a solution of the system built from the grid, or from its transpose, unlocks every cell of the box |
| Unlock.ShuffledSystemSolvable | main.cpp:298-314 | the system `openBox` builds for a shuffled box is solvable in either orientation |
| Unlock.OpenBox | main.cpp:296-334 | for `y, x >= 1`, `openBox` always returns false: the box ends unlocked |

## Left out

- The random generator is left out. `std::mt19937_64` seeded with `time(0)` is a clock and a random source. The constructor instead takes the shuffle's toggle positions as a parameter: fewer than 1000 of them, each inside the box. `OpenBox` takes them as well and proves its result for every such list.
- Console output is left out: `printMatrix`, `printVector` and the "No solution" message.
- `main` and its `argv` parsing are not part of this model.
- Degenerate dimensions are excluded. `OpenBox` requires `y, x >= 1`, and `GaussEliminationMod2` requires at least one equation, because the source reads `matrix[0]`.
- Machine-width arithmetic is not modelled. `uint32_t` overflow in `row * dim + col` and the `int` casts of sizes are replaced by unbounded naturals.
- Solver.GaussEliminationMod2: the contract does not say which unknowns are free in terms of the input. The invariant `Solver.Reduced` and `Solver.ReducedSolution` state that free unknowns are set to false, but the method's `ensures` gives only soundness and the exact failure condition.
- Solver.GaussEliminationMod2: the model returns `None` where the source returns an empty vector. `openBox` treats both the same, as a solution with no toggles.
- The elimination loop and the toggling loop of `openBox` are separate methods, `EliminateColumn` and `ApplySolution`. The source inlines them.
- The source marks a pivot column just before eliminating it. The model marks it just after. No step in between reads the table.
- The doc comment on `toggle` says it flips only the row part above the cell and the column part to its left. The code flips the cell once, then the whole row, then the whole column. The model follows the code.
- Neither minimality of the toggle set nor solvability of grids that toggles cannot reach is claimed, because the source promises neither. For example, `[true, false]` in a `1 x 2` box is unreachable and has no solution.
