/** The box's grid of lock bits as a value, the effect of one toggle on it,
    and the algebra of toggles: each is self-inverse, any two commute, and a
    sequence of toggles flips each cell once per toggle that shares its row
    or its column. */
module Grid {

  /** A grid of cells, row-major: `g[row][col]`, true = locked. */
  type Grid = seq<seq<bool>>

  /** A toggle position (row, col). */
  type Move = (nat, nat)

  predicate IsGrid(g: Grid, rows: nat, cols: nat)
  {
    |g| == rows && forall r :: 0 <= r < rows ==> |g[r]| == cols
  }

  /** Every row as long as the first one. */
  predicate Rectangular(g: Grid)
  {
    forall r :: 0 <= r < |g| ==> |g[r]| == |g[0]|
  }

  /** The all-unlocked grid. */
  function AllFalse(rows: nat, cols: nat): Grid
  {
    seq(rows, _ => seq(cols, _ => false))
  }

  /** Some cell is locked. */
  predicate AnyLocked(g: Grid)
  {
    exists r, c :: 0 <= r < |g| && 0 <= c < |g[r]| && g[r][c]
  }

  /** No cell of the all-unlocked grid is locked. */
  lemma AllFalseUnlocked(rows: nat, cols: nat)
    ensures !AnyLocked(AllFalse(rows, cols))
  {
  }

  /** Whether toggling at `m` flips cell (r, c): the cell shares m's row or m's column. */
  predicate Affects(m: Move, r: nat, c: nat)
  {
    m.0 == r || m.1 == c
  }

  /** All moves lie inside a rows x cols grid. */
  predicate InRange(ms: seq<Move>, rows: nat, cols: nat)
  {
    forall i :: 0 <= i < |ms| ==> ms[i].0 < rows && ms[i].1 < cols
  }

  /** The grid after toggling at (y, x): a cell is negated iff it lies in row y
      or in column x, and is unchanged otherwise. */
  function Toggled(g: Grid, y: nat, x: nat): Grid
  {
    seq(|g|, r requires 0 <= r < |g| =>
      seq(|g[r]|, c requires 0 <= c < |g[r]| => g[r][c] != Affects((y, x), r, c)))
  }

  /** The grid after applying the toggles `ms` in order. */
  function ApplyMoves(g: Grid, ms: seq<Move>): (h: Grid)
    ensures |h| == |g| && forall r :: 0 <= r < |g| ==> |h[r]| == |g[r]|
  {
    if |ms| == 0 then g
    else
      var last := ms[|ms| - 1];
      Toggled(ApplyMoves(g, ms[..|ms| - 1]), last.0, last.1)
  }

  /** Whether an odd number of the moves `ms` flip cell (r, c). */
  function Parity(ms: seq<Move>, r: nat, c: nat): bool
  {
    if |ms| == 0 then false
    else Parity(ms[..|ms| - 1], r, c) != Affects(ms[|ms| - 1], r, c)
  }

  /** The same moves with row and column exchanged. */
  function SwapMoves(ms: seq<Move>): seq<Move>
  {
    seq(|ms|, i requires 0 <= i < |ms| => (ms[i].1, ms[i].0))
  }

  /** The transpose of a rectangular grid (an empty grid stays empty). */
  function Transpose(g: Grid): Grid
    requires Rectangular(g)
  {
    if |g| == 0 then []
    else seq(|g[0]|, j requires 0 <= j < |g[0]| => seq(|g|, i requires 0 <= i < |g| => g[i][j]))
  }

  /** Toggling the same cell twice restores the grid exactly. */
  lemma ToggleTwice(g: Grid, y: nat, x: nat)
    ensures Toggled(Toggled(g, y, x), y, x) == g
  {
    var h := Toggled(Toggled(g, y, x), y, x);
    assert forall r :: 0 <= r < |g| ==> h[r] == g[r];
  }

  /** Two toggles commute. */
  lemma ToggleCommute(g: Grid, y1: nat, x1: nat, y2: nat, x2: nat)
    ensures Toggled(Toggled(g, y1, x1), y2, x2) == Toggled(Toggled(g, y2, x2), y1, x1)
  {
    var h1 := Toggled(Toggled(g, y1, x1), y2, x2);
    var h2 := Toggled(Toggled(g, y2, x2), y1, x1);
    assert forall r :: 0 <= r < |g| ==> h1[r] == h2[r];
  }

  /** The net effect of a sequence of toggles is the XOR of their individual
      effects: each cell ends flipped iff an odd number of them affect it. */
  lemma {:induction false} NetEffect(g: Grid, ms: seq<Move>, r: nat, c: nat)
    requires r < |g| && c < |g[r]|
    ensures ApplyMoves(g, ms)[r][c] == (g[r][c] != Parity(ms, r, c))
  {
    if |ms| > 0 {
      NetEffect(g, ms[..|ms| - 1], r, c);
    }
  }

  /** A single move flips exactly the cells it affects. */
  lemma ParitySingle(m: Move, r: nat, c: nat)
    ensures Parity([m], r, c) == Affects(m, r, c)
  {
    var none: seq<Move> := [];
    assert [m][..0] == none;
  }

  /** The parity of a concatenation is the XOR of the parities. */
  lemma {:induction false} ParityAppend(a: seq<Move>, b: seq<Move>, r: nat, c: nat)
    ensures Parity(a + b, r, c) == (Parity(a, r, c) != Parity(b, r, c))
  {
    if |b| == 0 {
      assert a + b == a;
    } else {
      assert (a + b)[..|a + b| - 1] == a + b[..|b| - 1];
      ParityAppend(a, b[..|b| - 1], r, c);
    }
  }

  /** Parity depends only on which moves occur how often, not on their order. */
  lemma {:induction false} ParityPermutation(a: seq<Move>, b: seq<Move>, r: nat, c: nat)
    requires multiset(a) == multiset(b)
    ensures Parity(a, r, c) == Parity(b, r, c)
    decreases |a|
  {
    if |a| > 0 {
      var m := a[|a| - 1];
      var a' := a[..|a| - 1];
      assert a == a' + [m];
      assert m in multiset(b);
      var k :| 0 <= k < |b| && b[k] == m;
      var b' := b[..k] + b[k + 1..];
      assert b == b[..k] + [m] + b[k + 1..];
      calc {
        multiset(a') + multiset{m};
        multiset(a);
        multiset(b);
        multiset(b[..k]) + multiset{m} + multiset(b[k + 1..]);
        multiset(b') + multiset{m};
      }
      assert multiset(a') == multiset(a') + multiset{m} - multiset{m};
      assert multiset(b') == multiset(b') + multiset{m} - multiset{m};
      ParityPermutation(a', b', r, c);
      ParityAppend(b[..k], [m], r, c);
      ParityAppend(b[..k] + [m], b[k + 1..], r, c);
      ParityAppend(b[..k], b[k + 1..], r, c);
      var single: seq<Move> := [m];
      assert Parity(single, r, c) == Affects(m, r, c) by {
        assert single[..0] == [];
      }
    } else {
      assert b == [];
    }
  }

  /** Applying the same toggles in any order gives the same grid. */
  lemma ApplyMovesPermutation(g: Grid, a: seq<Move>, b: seq<Move>)
    requires multiset(a) == multiset(b)
    ensures ApplyMoves(g, a) == ApplyMoves(g, b)
  {
    var ha, hb := ApplyMoves(g, a), ApplyMoves(g, b);
    forall r | 0 <= r < |g|
      ensures ha[r] == hb[r]
    {
      forall c | 0 <= c < |g[r]|
        ensures ha[r][c] == hb[r][c]
      {
        NetEffect(g, a, r, c);
        NetEffect(g, b, r, c);
        ParityPermutation(a, b, r, c);
      }
    }
  }

  /** Transposing a rectangular grid with at least one row and one column twice gives it back. */
  lemma TransposeInvolutive(g: Grid)
    requires Rectangular(g) && |g| > 0 && |g[0]| > 0
    ensures Rectangular(Transpose(g)) && Transpose(Transpose(g)) == g
  {
    var t := Transpose(g);
    var tt := Transpose(t);
    assert forall r :: 0 <= r < |g| ==> tt[r] == g[r];
  }

  /** Toggling (y, x) and then transposing is toggling (x, y) in the transposed grid. */
  lemma TransposeToggle(g: Grid, y: nat, x: nat)
    requires Rectangular(g)
    ensures Rectangular(Toggled(g, y, x)) && Rectangular(Transpose(g))
    ensures Transpose(Toggled(g, y, x)) == Toggled(Transpose(g), x, y)
  {
    var lhs := Transpose(Toggled(g, y, x));
    var rhs := Toggled(Transpose(g), x, y);
    assert forall j :: 0 <= j < |lhs| ==> lhs[j] == rhs[j];
  }

  /** Transposition turns a sequence of toggles into the same toggles with
      row and column exchanged. */
  lemma {:induction false} TransposeApplyMoves(g: Grid, ms: seq<Move>)
    requires Rectangular(g)
    ensures Rectangular(ApplyMoves(g, ms)) && Rectangular(Transpose(g))
    ensures Transpose(ApplyMoves(g, ms)) == ApplyMoves(Transpose(g), SwapMoves(ms))
  {
    if |ms| > 0 {
      var prefix := ms[..|ms| - 1];
      var last := ms[|ms| - 1];
      TransposeApplyMoves(g, prefix);
      TransposeToggle(ApplyMoves(g, prefix), last.0, last.1);
      assert SwapMoves(ms)[..|ms| - 1] == SwapMoves(prefix);
    }
  }

  /** The transpose of an all-unlocked rows x cols grid (rows > 0) is the all-unlocked cols x rows grid. */
  lemma TransposeAllFalse(rows: nat, cols: nat)
    requires rows > 0
    ensures Rectangular(AllFalse(rows, cols)) && Transpose(AllFalse(rows, cols)) == AllFalse(cols, rows)
  {
    var t := Transpose(AllFalse(rows, cols));
    assert forall j :: 0 <= j < cols ==> t[j] == AllFalse(cols, rows)[j];
  }
}
