/** Linear algebra over the two-element field: addition is XOR, multiplication
    is AND. A system A x = b is a boolean matrix, a right-hand side and an
    unknown vector; the row operations Gaussian elimination uses (swapping
    two equations, adding one equation to another) keep its solution set. */
module GF2 {
  import opened Grid

  type Matrix = seq<seq<bool>>

  /** The GF(2) inner product: the XOR over j of `row[j] && x[j]`. */
  function Dot(row: seq<bool>, x: seq<bool>): bool
    requires |row| == |x|
  {
    if |row| == 0 then false
    else Dot(row[..|row| - 1], x[..|x| - 1]) != (row[|row| - 1] && x[|x| - 1])
  }

  /** The GF(2) sum of two rows. */
  function XorRows(p: seq<bool>, q: seq<bool>): seq<bool>
    requires |p| == |q|
  {
    seq(|p|, k requires 0 <= k < |p| => p[k] != q[k])
  }

  /** `x` satisfies every equation `Dot(A[i], x) == b[i]`. */
  ghost predicate IsSolution(A: Matrix, b: seq<bool>, x: seq<bool>)
  {
    |A| == |b| && forall i :: 0 <= i < |A| ==> |A[i]| == |x| && Dot(A[i], x) == b[i]
  }

  /** Some vector of m unknowns satisfies the system. */
  ghost predicate Solvable(A: Matrix, b: seq<bool>, m: nat)
  {
    exists x :: |x| == m && IsSolution(A, b, x)
  }

  /** The two systems have exactly the same solutions. */
  ghost predicate SameSolutions(A: Matrix, b: seq<bool>, A': Matrix, b': seq<bool>)
  {
    forall x :: IsSolution(A, b, x) <==> IsSolution(A', b', x)
  }

  /** The inner product is linear in the row. */
  lemma {:induction false} DotXor(p: seq<bool>, q: seq<bool>, x: seq<bool>)
    requires |p| == |q| == |x|
    ensures Dot(XorRows(p, q), x) == (Dot(p, x) != Dot(q, x))
  {
    if |p| > 0 {
      var n := |p| - 1;
      DotXor(p[..n], q[..n], x[..n]);
      assert XorRows(p, q)[..n] == XorRows(p[..n], q[..n]);
    }
  }

  /** A row that meets no true unknown has inner product false. */
  lemma {:induction false} DotZero(row: seq<bool>, x: seq<bool>)
    requires |row| == |x|
    requires forall k :: 0 <= k < |row| ==> !(row[k] && x[k])
    ensures !Dot(row, x)
  {
    if |row| > 0 {
      DotZero(row[..|row| - 1], x[..|x| - 1]);
    }
  }

  /** When only position c can contribute, the inner product is that term. */
  lemma {:induction false} DotSingle(row: seq<bool>, x: seq<bool>, c: nat)
    requires |row| == |x| && c < |row|
    requires forall k :: 0 <= k < |row| && k != c ==> !(row[k] && x[k])
    ensures Dot(row, x) == (row[c] && x[c])
  {
    var n := |row| - 1;
    if c == n {
      DotZero(row[..n], x[..n]);
    } else {
      DotSingle(row[..n], x[..n], c);
    }
  }

  /** Flipping unknown k flips the inner product iff the row has k. */
  lemma {:induction false} DotFlip(row: seq<bool>, x: seq<bool>, k: nat)
    requires |row| == |x| && k < |x|
    ensures Dot(row, x[k := !x[k]]) == (Dot(row, x) != row[k])
  {
    var n := |row| - 1;
    var x' := x[k := !x[k]];
    if k == n {
      assert x'[..n] == x[..n];
    } else {
      assert x'[..n] == x[..n][k := !x[k]];
      DotFlip(row[..n], x[..n], k);
    }
  }

  /** Exchanging two equations keeps the solutions. */
  lemma SwapRows(A: Matrix, b: seq<bool>, i: nat, j: nat)
    requires |A| == |b| && i < |A| && j < |A|
    ensures SameSolutions(A, b, A[i := A[j]][j := A[i]], b[i := b[j]][j := b[i]])
  {
    var A', b' := A[i := A[j]][j := A[i]], b[i := b[j]][j := b[i]];
    forall x
      ensures IsSolution(A, b, x) <==> IsSolution(A', b', x)
    {
      if IsSolution(A, b, x) {
        forall k | 0 <= k < |A'|
          ensures |A'[k]| == |x| && Dot(A'[k], x) == b'[k]
        {
          if k == j {
          } else if k == i {
          }
        }
      }
      if IsSolution(A', b', x) {
        forall k | 0 <= k < |A|
          ensures |A[k]| == |x| && Dot(A[k], x) == b[k]
        {
          if k == i {
            assert A[i] == A'[if i == j then i else j];
          } else if k == j {
            assert A[j] == A'[i];
          } else {
            assert A[k] == A'[k];
          }
        }
      }
    }
  }

  /** Adding equation p to another equation r keeps the solutions. */
  lemma AddRow(A: Matrix, b: seq<bool>, p: nat, r: nat)
    requires |A| == |b| && p < |A| && r < |A| && p != r && |A[p]| == |A[r]|
    ensures SameSolutions(A, b, A[r := XorRows(A[r], A[p])], b[r := b[r] != b[p]])
  {
    var A', b' := A[r := XorRows(A[r], A[p])], b[r := b[r] != b[p]];
    assert forall k :: 0 <= k < |A| && k != r ==> A'[k] == A[k];
    forall x
      ensures IsSolution(A, b, x) <==> IsSolution(A', b', x)
    {
      if IsSolution(A, b, x) || IsSolution(A', b', x) {
        assert |A[p]| == |x| by {
          if IsSolution(A', b', x) {
            assert A'[p] == A[p];
          }
        }
        DotXor(A[r], A[p], x);
      }
    }
  }
}
