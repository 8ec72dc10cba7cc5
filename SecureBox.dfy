/** The locked container: a ySize x xSize grid of lock bits that changes only
    through `Toggle`. The random shuffle that sets up its initial state is
    given its toggle positions as a parameter. */
module Box {
  import opened Grid

  class SecureBox {
    var box: Grid
    const ySize: nat
    const xSize: nat

    ghost predicate Valid()
      reads this
    {
      IsGrid(box, ySize, xSize)
    }

    /** Builds an all-unlocked y x x box and shuffles it with `shuffleMoves`,
        the positions the random generator would draw (fewer than 1000 of them). */
    constructor (y: nat, x: nat, shuffleMoves: seq<Move>)
      requires |shuffleMoves| < 1000
      requires InRange(shuffleMoves, y, x)
      ensures Valid() && ySize == y && xSize == x
      ensures box == ApplyMoves(AllFalse(y, x), shuffleMoves)
    {
      ySize, xSize := y, x;
      box := AllFalse(y, x);
      new;
      Shuffle(shuffleMoves);
    }

    /** Applies the shuffle's toggles one after another. */
    method Shuffle(moves: seq<Move>)
      requires Valid() && InRange(moves, ySize, xSize)
      modifies this
      ensures Valid() && box == ApplyMoves(old(box), moves)
    {
      var t := 0;
      while t < |moves|
        invariant 0 <= t <= |moves|
        invariant Valid() && box == ApplyMoves(old(box), moves[..t])
      {
        assert moves[..t + 1][..t] == moves[..t];
        Toggle(moves[t].0, moves[t].1);
        t := t + 1;
      }
      assert moves[..|moves|] == moves;
    }

    /** Negates cell (y, x), then every cell of row y, then every cell of
        column x. Cell (y, x) is negated three times, so on balance every
        cell in row y or column x is negated once and no other cell changes. */
    method Toggle(y: nat, x: nat)
      requires Valid() && y < ySize && x < xSize
      modifies this
      ensures Valid() && box == Toggled(old(box), y, x)
    {
      box := box[y := box[y][x := !box[y][x]]];
      var i := 0;
      while i < xSize
        invariant 0 <= i <= xSize && Valid()
        invariant forall r, c :: 0 <= r < ySize && 0 <= c < xSize ==>
          box[r][c] == (old(box)[r][c] != ((r == y && c == x) != (r == y && c < i)))
      {
        box := box[y := box[y][i := !box[y][i]]];
        i := i + 1;
      }
      i := 0;
      while i < ySize
        invariant 0 <= i <= ySize && Valid()
        invariant forall r, c :: 0 <= r < ySize && 0 <= c < xSize ==>
          box[r][c] == (old(box)[r][c] != (((r == y && c == x) != (r == y)) != (c == x && r < i)))
      {
        box := box[i := box[i][x := !box[i][x]]];
        i := i + 1;
      }
      assert forall r :: 0 <= r < ySize ==> box[r] == Toggled(old(box), y, x)[r];
    }

    /** True iff some cell of the box is locked; scans column by column. */
    method IsLocked() returns (locked: bool)
      requires Valid()
      ensures locked <==> AnyLocked(box)
    {
      var x := 0;
      while x < xSize
        invariant 0 <= x <= xSize
        invariant forall r, c :: 0 <= r < ySize && 0 <= c < x ==> !box[r][c]
      {
        var y := 0;
        while y < ySize
          invariant 0 <= y <= ySize
          invariant forall r :: 0 <= r < y ==> !box[r][x]
        {
          if box[y][x] {
            return true;
          }
          y := y + 1;
        }
        x := x + 1;
      }
      return false;
    }

    /** A copy of the current grid. */
    method GetState() returns (state: Grid)
      requires Valid()
      ensures IsGrid(state, ySize, xSize) && state == box
    {
      state := box;
    }
  }
}
