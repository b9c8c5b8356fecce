/**
  The strike-out pseudo-inverse of array.py: delete row and column `n` of an
  N×N matrix (`strikeoutxy`), invert what is left, and put the inverse back
  into N×N coordinates with a zero row and a zero column at `n` (`pinv`); and
  the column-by-column variant `pinv2`, which strikes out only column `n`
  (`strikeoutx`) and assembles one solver result per column into an array.

  The inverse (`sp.linalg.inv`) and the iterative solver (`bicg`) are library
  routines: `Pinv` receives the inverse as an argument, and `Pinv2` receives
  the solver as a function of the system matrix and the right-hand side.
*/
module Strikeout {
  import opened Matrices

  // ---------------------------------------------------------------------
  // strikeoutx, strikeoutxy

  /** `hstack(L[:, :n], L[:, n+1:])`: every row loses its entry in column `n`. */
  function StrikeOutX(L: Matrix, n: nat): (r: Matrix)
    requires forall i :: 0 <= i < |L| ==> n < |L[i]|
    ensures |r| == |L|
    ensures forall i :: 0 <= i < |L| ==> r[i] == RemoveAt(L[i], n)
  {
    seq(|L|, i requires 0 <= i < |L| => RemoveAt(L[i], n))
  }

  /** `StrikeOutX(L, n)` keeps every row and every column but `n`: entry (i, j) is `L[i][Lift(j, n)]`. */
  lemma StrikeOutXEntries(L: Matrix, n: nat)
    requires forall i :: 0 <= i < |L| ==> n < |L[i]|
    ensures |StrikeOutX(L, n)| == |L|
    ensures forall i :: 0 <= i < |L| ==> |StrikeOutX(L, n)[i]| == |L[i]| - 1
    ensures forall i, j {:trigger StrikeOutX(L, n)[i][j]} :: 0 <= i < |L| && 0 <= j < |L[i]| - 1 ==> StrikeOutX(L, n)[i][j] == L[i][Lift(j, n)]
  {
  }

  /**
    The block matrix `[[L[:n, :n], L[:n, n+1:]], [L[n+1:, :n], L[n+1:, n+1:]]]`:
    the rows above `n` and the rows below `n`, each with column `n` removed.
  */
  function StrikeOutXY(L: Matrix, n: nat): (r: Matrix)
    requires IsSquare(L) && n < |L|
    ensures IsMatrix(r, |L| - 1, |L| - 1)
    ensures forall i, j {:trigger r[i][j]} :: 0 <= i < |L| - 1 && 0 <= j < |L| - 1 ==> r[i][j] == L[Lift(i, n)][Lift(j, n)]
  {
    var r := StrikeOutX(L[..n], n) + StrikeOutX(L[n + 1..], n);
    assert forall i {:trigger r[i]} :: 0 <= i < |r| ==> r[i] == RemoveAt(L[Lift(i, n)], n);
    r
  }

  /** Row `i` of the reduced matrix is row `Lift(i, n)` of `L` without column `n`. */
  lemma StrikeOutXYRow(L: Matrix, n: nat, i: nat)
    requires IsSquare(L) && n < |L| && i < |L| - 1
    ensures StrikeOutXY(L, n)[i] == RemoveAt(L[Lift(i, n)], n)
  {
  }

  /** Column `j` of the reduced matrix is column `Lift(j, n)` of `L` without row `n`. */
  lemma StrikeOutXYColumn(L: Matrix, n: nat, j: nat)
    requires IsSquare(L) && n < |L| && j < |L| - 1
    ensures Column(StrikeOutXY(L, n), j) == RemoveAt(Column(L, Lift(j, n)), n)
  {
  }

  // ---------------------------------------------------------------------
  // pinv: re-embedding the inverse of the reduced matrix

  /** Every row of `rows` with a zero spliced in at column `n`. */
  function EmbedRows(rows: Matrix, n: nat): (r: Matrix)
    requires forall i :: 0 <= i < |rows| ==> n <= |rows[i]|
    ensures |r| == |rows|
    ensures forall i :: 0 <= i < |rows| ==> r[i] == InsertZero(rows[i], n)
  {
    seq(|rows|, i requires 0 <= i < |rows| => InsertZero(rows[i], n))
  }

  /**
    `pinv(L, n)` once `Li`, the inverse of `StrikeOutXY(L, n)`, is known:
    the blocks `Li[:n, :n]`, `Li[:n, n:]`, `Li[n:, :n]`, `Li[n:, n:]` placed
    around a zero row and a zero column at `n`.
  */
  function Pinv(L: Matrix, n: nat, Li: Matrix): (r: Matrix)
    requires IsSquare(L) && n < |L|
    requires IsMatrix(Li, |L| - 1, |L| - 1)
    ensures IsMatrix(r, |L|, |L|)
    ensures forall j :: 0 <= j < |L| ==> r[n][j] == 0.0 && r[j][n] == 0.0
    ensures forall i, j {:trigger Li[i][j]} :: 0 <= i < |L| - 1 && 0 <= j < |L| - 1 ==> r[Lift(i, n)][Lift(j, n)] == Li[i][j]
  {
    var r := EmbedRows(Li[..n], n) + [Zeros(|L|)] + EmbedRows(Li[n..], n);
    EmbeddedBlocks(Li, n, r);
    r
  }

  /** The three bands of the block matrix in `Pinv`, row by row. */
  lemma EmbeddedBlocks(Li: Matrix, n: nat, r: Matrix)
    requires IsMatrix(Li, |Li|, |Li|) && n <= |Li|
    requires r == EmbedRows(Li[..n], n) + [Zeros(|Li| + 1)] + EmbedRows(Li[n..], n)
    ensures |r| == |Li| + 1 && r[n] == Zeros(|Li| + 1)
    ensures forall i {:trigger Li[i]} :: 0 <= i < |Li| ==> r[Lift(i, n)] == InsertZero(Li[i], n)
  {
    forall i | 0 <= i < |Li| ensures r[Lift(i, n)] == InsertZero(Li[i], n) {
      if i < n {
        assert r[i] == EmbedRows(Li[..n], n)[i];
      } else {
        assert r[i + 1] == EmbedRows(Li[n..], n)[i - n];
      }
    }
  }

  /** Striking row and column `n` out of the re-embedded inverse gives back `Li`. */
  lemma StrikeOutPinv(L: Matrix, n: nat, Li: Matrix)
    requires IsSquare(L) && n < |L|
    requires IsMatrix(Li, |L| - 1, |L| - 1)
    ensures StrikeOutXY(Pinv(L, n, Li), n) == Li
  {
    var r := StrikeOutXY(Pinv(L, n, Li), n);
    assert forall i :: 0 <= i < |Li| ==> r[i] == Li[i];
  }

  /** Re-embedding the reduced matrix itself clears row and column `n` of `L` and keeps the rest. */
  lemma PinvStrikeOut(L: Matrix, n: nat)
    requires IsSquare(L) && n < |L|
    ensures forall i, j :: 0 <= i < |L| && 0 <= j < |L| ==>
      Pinv(L, n, StrikeOutXY(L, n))[i][j] == if i == n || j == n then 0.0 else L[i][j]
  {
    var r := Pinv(L, n, StrikeOutXY(L, n));
    forall i, j | 0 <= i < |L| && 0 <= j < |L|
      ensures r[i][j] == if i == n || j == n then 0.0 else L[i][j]
    {
      if i != n && j != n {
        PinvStrikeOutAt(L, n, i, j);
      }
    }
  }

  lemma PinvStrikeOutAt(L: Matrix, n: nat, i: nat, j: nat)
    requires IsSquare(L) && n < |L|
    requires i < |L| && j < |L| && i != n && j != n
    ensures Pinv(L, n, StrikeOutXY(L, n))[i][j] == L[i][j]
  {
    var Lt := StrikeOutXY(L, n);
    var a, b := Lower(i, n), Lower(j, n);
    assert Lt[a][b] == L[i][j];
    assert Pinv(L, n, Lt)[Lift(a, n)][Lift(b, n)] == Lt[a][b];
  }

  /** Column `Lift(j, n)` of the re-embedding is column `j` of `Li` with a zero at row `n`. */
  lemma PinvColumn(L: Matrix, n: nat, Li: Matrix, j: nat)
    requires IsSquare(L) && n < |L|
    requires IsMatrix(Li, |L| - 1, |L| - 1)
    requires j < |L| - 1
    ensures Column(Pinv(L, n, Li), Lift(j, n)) == InsertZero(Column(Li, j), n)
  {
    var c := Column(Pinv(L, n, Li), Lift(j, n));
    var d := InsertZero(Column(Li, j), n);
    forall k | 0 <= k < |L| ensures c[k] == d[k] {
      if k != n {
        assert c[Lift(Lower(k, n), n)] == d[Lift(Lower(k, n), n)];
      }
    }
  }

  /** Row `Lift(i, n)` of the re-embedding is row `i` of `Li` with a zero at column `n`. */
  lemma PinvRow(L: Matrix, n: nat, Li: Matrix, i: nat)
    requires IsSquare(L) && n < |L|
    requires IsMatrix(Li, |L| - 1, |L| - 1)
    requires i < |L| - 1
    ensures Pinv(L, n, Li)[Lift(i, n)] == InsertZero(Li[i], n)
  {
    var r := Pinv(L, n, Li)[Lift(i, n)];
    var d := InsertZero(Li[i], n);
    forall k | 0 <= k < |L| ensures r[k] == d[k] {
      if k != n {
        assert r[Lift(Lower(k, n), n)] == d[Lift(Lower(k, n), n)];
      }
    }
  }

  /** Entry (i, j) of the reduced `L·P` is entry (i, j) of the reduced `L` times `Li`. */
  lemma PinvRightProductAt(L: Matrix, n: nat, Li: Matrix, i: nat, j: nat)
    requires IsSquare(L) && n < |L|
    requires IsMatrix(Li, |L| - 1, |L| - 1)
    requires i < |L| - 1 && j < |L| - 1
    ensures StrikeOutXY(MatMul(L, Pinv(L, n, Li), |L|), n)[i][j] == MatMul(StrikeOutXY(L, n), Li, |L| - 1)[i][j]
  {
    var N := |L|;
    var P := Pinv(L, n, Li);
    var LP := MatMul(L, P, N);
    var a, b := Lift(i, n), Lift(j, n);
    var row := L[a];
    var col := Column(Li, j);
    assert StrikeOutXY(LP, n)[i][j] == LP[a][b] == Dot(row, Column(P, b));
    PinvColumn(L, n, Li, j);
    DotInsertZero(col, row, n);
    StrikeOutXYRow(L, n, i);
  }

  /** Entry (i, j) of the reduced `P·L` is entry (i, j) of `Li` times the reduced `L`. */
  lemma PinvLeftProductAt(L: Matrix, n: nat, Li: Matrix, i: nat, j: nat)
    requires IsSquare(L) && n < |L|
    requires IsMatrix(Li, |L| - 1, |L| - 1)
    requires i < |L| - 1 && j < |L| - 1
    ensures StrikeOutXY(MatMul(Pinv(L, n, Li), L, |L|), n)[i][j] == MatMul(Li, StrikeOutXY(L, n), |L| - 1)[i][j]
  {
    var N := |L|;
    var P := Pinv(L, n, Li);
    var PL := MatMul(P, L, N);
    var a, b := Lift(i, n), Lift(j, n);
    assert StrikeOutXY(PL, n)[i][j] == PL[a][b] == Dot(P[a], Column(L, b));
    PinvRow(L, n, Li, i);
    StrikeOutXYColumn(L, n, j);
    DotInsertZero(Li[i], Column(L, b), n);
  }

  /**
    Multiplying `L` by the re-embedding `P` and then striking out row and
    column `n` is the same as multiplying the reduced matrix by `Li`.
  */
  lemma PinvRightProduct(L: Matrix, n: nat, Li: Matrix)
    requires IsSquare(L) && n < |L|
    requires IsMatrix(Li, |L| - 1, |L| - 1)
    ensures StrikeOutXY(MatMul(L, Pinv(L, n, Li), |L|), n) == MatMul(StrikeOutXY(L, n), Li, |L| - 1)
  {
    var got := StrikeOutXY(MatMul(L, Pinv(L, n, Li), |L|), n);
    var want := MatMul(StrikeOutXY(L, n), Li, |L| - 1);
    forall i | 0 <= i < |L| - 1 ensures got[i] == want[i] {
      forall j | 0 <= j < |L| - 1 ensures got[i][j] == want[i][j] {
        PinvRightProductAt(L, n, Li, i, j);
      }
    }
  }

  /**
    Multiplying the re-embedding `P` by `L` and then striking out row and
    column `n` is the same as multiplying `Li` by the reduced matrix.
  */
  lemma PinvLeftProduct(L: Matrix, n: nat, Li: Matrix)
    requires IsSquare(L) && n < |L|
    requires IsMatrix(Li, |L| - 1, |L| - 1)
    ensures StrikeOutXY(MatMul(Pinv(L, n, Li), L, |L|), n) == MatMul(Li, StrikeOutXY(L, n), |L| - 1)
  {
    var got := StrikeOutXY(MatMul(Pinv(L, n, Li), L, |L|), n);
    var want := MatMul(Li, StrikeOutXY(L, n), |L| - 1);
    forall i | 0 <= i < |L| - 1 ensures got[i] == want[i] {
      forall j | 0 <= j < |L| - 1 ensures got[i][j] == want[i][j] {
        PinvLeftProductAt(L, n, Li, i, j);
      }
    }
  }

  /** Column `n` of `L·P` and row `n` of `P·L` are zero. */
  lemma PinvProductZeroCross(L: Matrix, n: nat, Li: Matrix)
    requires IsSquare(L) && n < |L|
    requires IsMatrix(Li, |L| - 1, |L| - 1)
    ensures forall i :: 0 <= i < |L| ==> MatMul(L, Pinv(L, n, Li), |L|)[i][n] == 0.0
    ensures forall j :: 0 <= j < |L| ==> MatMul(Pinv(L, n, Li), L, |L|)[n][j] == 0.0
  {
    var N := |L|;
    var P := Pinv(L, n, Li);
    assert Column(P, n) == Zeros(N);
    assert P[n] == Zeros(N);
    forall i | 0 <= i < N ensures Dot(L[i], Column(P, n)) == 0.0 {
      DotCommutes(L[i], Zeros(N));
      DotZeros(L[i]);
    }
    forall j | 0 <= j < N ensures Dot(P[n], Column(L, j)) == 0.0 {
      DotZeros(Column(L, j));
    }
  }

  /**
    When `Li` is a two-sided inverse of the reduced matrix, the re-embedding
    is an inverse of `L` on every row and column except `n`.
  */
  lemma PinvInvertsReduced(L: Matrix, n: nat, Li: Matrix)
    requires IsSquare(L) && n < |L|
    requires IsMatrix(Li, |L| - 1, |L| - 1)
    requires MatMul(StrikeOutXY(L, n), Li, |L| - 1) == Identity(|L| - 1)
    requires MatMul(Li, StrikeOutXY(L, n), |L| - 1) == Identity(|L| - 1)
    ensures StrikeOutXY(MatMul(L, Pinv(L, n, Li), |L|), n) == Identity(|L| - 1)
    ensures StrikeOutXY(MatMul(Pinv(L, n, Li), L, |L|), n) == Identity(|L| - 1)
    ensures forall i :: 0 <= i < |L| ==> MatMul(L, Pinv(L, n, Li), |L|)[i][n] == 0.0
    ensures forall j :: 0 <= j < |L| ==> MatMul(Pinv(L, n, Li), L, |L|)[n][j] == 0.0
  {
    PinvRightProduct(L, n, Li);
    PinvLeftProduct(L, n, Li);
    PinvProductZeroCross(L, n, Li);
  }

  /**
    L = [[4, 1, 0], [1, 3, 1], [0, 1, 2]] struck at 1 leaves [[4, 0], [0, 2]];
    re-embedding its inverse [[0.25, 0], [0, 0.5]] gives
    [[0.25, 0, 0], [0, 0, 0], [0, 0, 0.5]].
  */
  lemma PinvExample()
    ensures StrikeOutXY([[4.0, 1.0, 0.0], [1.0, 3.0, 1.0], [0.0, 1.0, 2.0]], 1) == [[4.0, 0.0], [0.0, 2.0]]
    ensures Pinv([[4.0, 1.0, 0.0], [1.0, 3.0, 1.0], [0.0, 1.0, 2.0]], 1, [[0.25, 0.0], [0.0, 0.5]]) ==
      [[0.25, 0.0, 0.0], [0.0, 0.0, 0.0], [0.0, 0.0, 0.5]]
  {
    var L: Matrix := [[4.0, 1.0, 0.0], [1.0, 3.0, 1.0], [0.0, 1.0, 2.0]];
    var Lt := StrikeOutXY(L, 1);
    assert Lt[0] == [4.0, 0.0] && Lt[1] == [0.0, 2.0];
    var P := Pinv(L, 1, [[0.25, 0.0], [0.0, 0.5]]);
    assert P[0] == [0.25, 0.0, 0.0] && P[1] == [0.0, 0.0, 0.0] && P[2] == [0.0, 0.0, 0.5];
  }

  // ---------------------------------------------------------------------
  // pinv2: assembling one solver result per column

  /** The N×N matrix whose column `c` is `cols[c]` with a zero spliced in at row `n`. */
  function AssembleColumns(cols: seq<Vector>, n: nat): (r: Matrix)
    requires n < |cols|
    requires forall c :: 0 <= c < |cols| ==> |cols[c]| == |cols| - 1
    ensures IsMatrix(r, |cols|, |cols|)
    ensures forall c :: 0 <= c < |cols| ==> r[n][c] == 0.0
    ensures forall k, c {:trigger cols[c][k]} :: 0 <= k < |cols| - 1 && 0 <= c < |cols| ==> r[Lift(k, n)][c] == cols[c][k]
  {
    seq(|cols|, i requires 0 <= i < |cols| =>
      seq(|cols|, c requires 0 <= c < |cols| => InsertZero(cols[c], n)[i]))
  }

  lemma AssembleColumnsColumn(cols: seq<Vector>, n: nat, c: nat)
    requires n < |cols| && c < |cols|
    requires forall c :: 0 <= c < |cols| ==> |cols[c]| == |cols| - 1
    ensures Column(AssembleColumns(cols, n), c) == InsertZero(cols[c], n)
  {
    var got := Column(AssembleColumns(cols, n), c);
    var want := InsertZero(cols[c], n);
    forall k | 0 <= k < |cols| ensures got[k] == want[k] {
      if k != n {
        assert got[Lift(Lower(k, n), n)] == want[Lift(Lower(k, n), n)];
      }
    }
  }

  /**
    `Li[:n, i] = sol[:n]; Li[n, i] = 0.; Li[n+1:, i] = sol[n:]`: column `i`
    becomes `sol` with a zero at row `n`; no other column changes.
  */
  method WriteColumn(Li: array2<real>, i: nat, n: nat, sol: Vector)
    requires i < Li.Length1 && n < Li.Length0 && |sol| == Li.Length0 - 1
    modifies Li
    ensures forall r :: 0 <= r < Li.Length0 ==> Li[r, i] == InsertZero(sol, n)[r]
    ensures forall r, c :: 0 <= r < Li.Length0 && 0 <= c < Li.Length1 && c != i ==> Li[r, c] == old(Li[r, c])
  {
    forall k | 0 <= k < n {
      Li[k, i] := sol[k];
    }
    Li[n, i] := 0.0;
    forall k | n + 1 <= k < Li.Length0 {
      Li[k, i] := sol[k - 1];
    }
    forall r | 0 <= r < Li.Length0 ensures Li[r, i] == InsertZero(sol, n)[r] {
      if r != n {
        assert InsertZero(sol, n)[Lift(Lower(r, n), n)] == sol[Lower(r, n)];
      }
    }
  }

  /** The solver's result for every column: `bicg(Lt, indicator(N, i))` with `Lt = strikeoutx(L, n)`. */
  function Solutions(L: Matrix, n: nat, solve: (Matrix, Vector) -> Vector): (sols: seq<Vector>)
    requires IsSquare(L) && n < |L|
    ensures |sols| == |L|
    ensures forall i :: 0 <= i < |L| ==> sols[i] == solve(StrikeOutX(L, n), Indicator(|L|, i))
  {
    seq(|L|, i requires 0 <= i < |L| => solve(StrikeOutX(L, n), Indicator(|L|, i)))
  }

  /** The solver returns a vector of length N-1 for every right-hand side it is given. */
  predicate SolverFits(L: Matrix, n: nat, solve: (Matrix, Vector) -> Vector)
    requires IsSquare(L) && n < |L|
  {
    forall i :: 0 <= i < |L| ==> |solve(StrikeOutX(L, n), Indicator(|L|, i))| == |L| - 1
  }

  /**
    The loop of `pinv2`: for every column `i`, solve `Lt·x = e_i` with the
    column-struck matrix `Lt` and write the solution into column `i` with a
    zero at row `n`.
  */
  method Pinv2(L: Matrix, n: nat, solve: (Matrix, Vector) -> Vector) returns (Li: array2<real>)
    requires IsSquare(L) && n < |L|
    requires SolverFits(L, n, solve)
    ensures fresh(Li)
    ensures Li.Length0 == |L| && Li.Length1 == |L|
    ensures forall r, c :: 0 <= r < |L| && 0 <= c < |L| ==> Li[r, c] == AssembleColumns(Solutions(L, n, solve), n)[r][c]
  {
    var Lt := StrikeOutX(L, n);
    var N := |L|;
    Li := new real[N, N];
    for i := 0 to N
      invariant forall r, c :: 0 <= r < N && 0 <= c < i ==> Li[r, c] == InsertZero(solve(Lt, Indicator(N, c)), n)[r]
    {
      var sol := solve(Lt, Indicator(N, i));
      WriteColumn(Li, i, n, sol);
    }
    ghost var A := AssembleColumns(Solutions(L, n, solve), n);
    forall r, c | 0 <= r < N && 0 <= c < N ensures Li[r, c] == A[r][c] {
      AssembleColumnsColumn(Solutions(L, n, solve), n, c);
      assert Column(A, c)[r] == A[r][c];
    }
  }

  /**
    What `pinv2` computes, whatever the solver returns: column `c` of `L·Li`
    is exactly `Lt·sol_c`, the column-struck matrix applied to the solver's
    result. So `L·Li` is the identity exactly when every solve is exact.
  */
  lemma AssembledProduct(L: Matrix, n: nat, cols: seq<Vector>)
    requires IsSquare(L) && n < |L| && |cols| == |L|
    requires forall c :: 0 <= c < |cols| ==> |cols[c]| == |L| - 1
    ensures forall r, c :: 0 <= r < |L| && 0 <= c < |L| ==>
      MatMul(L, AssembleColumns(cols, n), |L|)[r][c] == MatVec(StrikeOutX(L, n), cols[c])[r]
  {
    forall r, c | 0 <= r < |L| && 0 <= c < |L|
      ensures MatMul(L, AssembleColumns(cols, n), |L|)[r][c] == MatVec(StrikeOutX(L, n), cols[c])[r]
    {
      AssembledProductAt(L, n, cols, r, c);
    }
  }

  lemma AssembledProductAt(L: Matrix, n: nat, cols: seq<Vector>, r: nat, c: nat)
    requires IsSquare(L) && n < |L| && |cols| == |L|
    requires forall c :: 0 <= c < |cols| ==> |cols[c]| == |L| - 1
    requires r < |L| && c < |L|
    ensures MatMul(L, AssembleColumns(cols, n), |L|)[r][c] == Dot(RemoveAt(L[r], n), cols[c])
    ensures MatVec(StrikeOutX(L, n), cols[c])[r] == Dot(RemoveAt(L[r], n), cols[c])
  {
    var A := AssembleColumns(cols, n);
    assert MatMul(L, A, |L|)[r][c] == Dot(L[r], Column(A, c));
    AssembleColumnsColumn(cols, n, c);
    DotInsertZero(cols[c], L[r], n);
  }

  // ---------------------------------------------------------------------
  // The systems pinv2 solves have no solution for a Laplacian

  /** Every column of `L` sums to zero, as in a graph Laplacian. */
  predicate ColumnsSumToZero(L: Matrix)
    requires IsSquare(L)
  {
    forall j :: 0 <= j < |L| ==> Sum(Column(L, j)) == 0.0
  }

  /**
    Striking out only column `n` leaves N equations in N-1 unknowns. When
    the columns of `L` sum to zero, so do the entries of `Lt·x` for every
    `x`, while those of `e_c` sum to 1: none of the systems `pinv2` hands to
    the solver can be solved.
  */
  lemma ColumnStruckSystemUnsolvable(L: Matrix, n: nat, x: Vector, c: nat)
    requires IsSquare(L) && n < |L| && ColumnsSumToZero(L)
    requires |x| == |L| - 1 && c < |L|
    ensures MatVec(StrikeOutX(L, n), x) != Indicator(|L|, c)
  {
    var Lt := StrikeOutX(L, n);
    ColSumStrikeOutX(L, n);
    SumMatVec(Lt, x);
    DotZeros(x);
    SumIndicator(|L|, c);
  }

  /** The columns of `StrikeOutX(L, n)` are columns of `L`, so they sum to zero too. */
  lemma ColSumStrikeOutX(L: Matrix, n: nat)
    requires IsSquare(L) && n < |L| && ColumnsSumToZero(L)
    ensures IsMatrix(StrikeOutX(L, n), |L|, |L| - 1)
    ensures ColSum(StrikeOutX(L, n), |L| - 1) == Zeros(|L| - 1)
  {
    var Lt := StrikeOutX(L, n);
    var cols := |L| - 1;
    assert IsMatrix(Lt, |L|, cols);
    var s := ColSum(Lt, cols);
    forall j | 0 <= j < cols ensures s[j] == 0.0 {
      ColSumIsColumnSum(Lt, cols, j);
      StrikeOutXColumn(L, n, j);
    }
    assert s == Zeros(cols);
  }

  /** Column `j` of `StrikeOutX(L, n)` is column `Lift(j, n)` of `L`. */
  lemma StrikeOutXColumn(L: Matrix, n: nat, j: nat)
    requires IsSquare(L) && n < |L| && j < |L| - 1
    ensures Column(StrikeOutX(L, n), j) == Column(L, Lift(j, n))
  {
  }

  /**
    The two-node Laplacian [[1, -1], [-1, 1]] struck at 0 keeps column 1, so
    `Lt` is [[-1], [1]], and no `x` solves `Lt·x = e_0`.
  */
  lemma TwoNodeLaplacianUnsolvable(x: Vector)
    requires |x| == 1
    ensures StrikeOutX([[1.0, -1.0], [-1.0, 1.0]], 0) == [[-1.0], [1.0]]
    ensures MatVec(StrikeOutX([[1.0, -1.0], [-1.0, 1.0]], 0), x) != Indicator(2, 0)
  {
    var L: Matrix := [[1.0, -1.0], [-1.0, 1.0]];
    assert Column(L, 0) == [1.0, -1.0] && Column(L, 1) == [-1.0, 1.0];
    assert [1.0, -1.0][..1] == [1.0] && [-1.0, 1.0][..1] == [-1.0];
    assert [1.0][..0] == [] && [-1.0][..0] == [];
    assert ColumnsSumToZero(L);
    ColumnStruckSystemUnsolvable(L, 0, x, 0);
  }

  // ---------------------------------------------------------------------
  // pinv2 solving the reduced square systems, as pinv inverts

  /**
    One solution per column of the square reduced system
    `StrikeOutXY(L, n)·x = e_Lower(c)`, and no solve for column `n`.
  */
  function ReducedSolutions(L: Matrix, n: nat, solve: (Matrix, Vector) -> Vector): (sols: seq<Vector>)
    requires IsSquare(L) && n < |L|
    ensures |sols| == |L| && sols[n] == Zeros(|L| - 1)
    ensures forall i :: 0 <= i < |L| && i != n ==>
      sols[i] == solve(StrikeOutXY(L, n), Indicator(|L| - 1, Lower(i, n)))
  {
    seq(|L|, i requires 0 <= i < |L| =>
      if i == n then Zeros(|L| - 1) else solve(StrikeOutXY(L, n), Indicator(|L| - 1, Lower(i, n))))
  }

  /** The solver returns a vector of length N-1 for every reduced right-hand side. */
  predicate ReducedSolverFits(L: Matrix, n: nat, solve: (Matrix, Vector) -> Vector)
    requires IsSquare(L) && n < |L|
  {
    forall i :: 0 <= i < |L| && i != n ==>
      |solve(StrikeOutXY(L, n), Indicator(|L| - 1, Lower(i, n)))| == |L| - 1
  }

  /**
    The assembly loop of `pinv2` over the reduced square systems: column
    `i != n` holds the solution for `e_Lower(i)`, column `n` is zero.
  */
  method Pinv2Reduced(L: Matrix, n: nat, solve: (Matrix, Vector) -> Vector) returns (Li: array2<real>)
    requires IsSquare(L) && n < |L|
    requires ReducedSolverFits(L, n, solve)
    ensures fresh(Li)
    ensures Li.Length0 == |L| && Li.Length1 == |L|
    ensures forall r, c :: 0 <= r < |L| && 0 <= c < |L| ==> Li[r, c] == AssembleColumns(ReducedSolutions(L, n, solve), n)[r][c]
  {
    var Lt := StrikeOutXY(L, n);
    var N := |L|;
    ghost var sols := ReducedSolutions(L, n, solve);
    Li := new real[N, N];
    for i := 0 to N
      invariant forall r, c :: 0 <= r < N && 0 <= c < i ==> Li[r, c] == InsertZero(sols[c], n)[r]
    {
      var sol := if i == n then Zeros(N - 1) else solve(Lt, Indicator(N - 1, Lower(i, n)));
      WriteColumn(Li, i, n, sol);
    }
    ghost var A := AssembleColumns(sols, n);
    forall r, c | 0 <= r < N && 0 <= c < N ensures Li[r, c] == A[r][c] {
      AssembleColumnsColumn(sols, n, c);
      assert Column(A, c)[r] == A[r][c];
    }
  }

  /**
    When every reduced solve is exact, the assembled matrix has a zero row
    and column at `n`, and `L` times it is the identity on every other row
    and column (a right inverse there).
  */
  lemma ReducedAssemblyInverts(L: Matrix, n: nat, solve: (Matrix, Vector) -> Vector)
    requires IsSquare(L) && n < |L|
    requires ReducedSolverFits(L, n, solve)
    requires forall i :: 0 <= i < |L| && i != n ==>
      MatVec(StrikeOutXY(L, n), solve(StrikeOutXY(L, n), Indicator(|L| - 1, Lower(i, n)))) == Indicator(|L| - 1, Lower(i, n))
    ensures forall c :: 0 <= c < |L| ==>
      AssembleColumns(ReducedSolutions(L, n, solve), n)[n][c] == 0.0 &&
      AssembleColumns(ReducedSolutions(L, n, solve), n)[c][n] == 0.0
    ensures StrikeOutXY(MatMul(L, AssembleColumns(ReducedSolutions(L, n, solve), n), |L|), n) == Identity(|L| - 1)
  {
    var sols := ReducedSolutions(L, n, solve);
    AssembledZeroCross(sols, n);
    forall j | 0 <= j < |L| - 1
      ensures MatVec(StrikeOutXY(L, n), sols[Lift(j, n)]) == Indicator(|L| - 1, j)
    {
      assert Lower(Lift(j, n), n) == j;
    }
    ReducedIdentity(L, n, sols);
  }

  /**
    When the solver returns the columns of `Li`, the corrected assembly is
    exactly the re-embedding `pinv` builds from `Li`.
  */
  lemma ReducedAssemblyIsPinv(L: Matrix, n: nat, solve: (Matrix, Vector) -> Vector, Li: Matrix)
    requires IsSquare(L) && n < |L|
    requires IsMatrix(Li, |L| - 1, |L| - 1)
    requires forall j :: 0 <= j < |L| - 1 ==> solve(StrikeOutXY(L, n), Indicator(|L| - 1, j)) == Column(Li, j)
    ensures ReducedSolverFits(L, n, solve)
    ensures AssembleColumns(ReducedSolutions(L, n, solve), n) == Pinv(L, n, Li)
  {
    forall i | 0 <= i < |L| && i != n
      ensures |solve(StrikeOutXY(L, n), Indicator(|L| - 1, Lower(i, n)))| == |L| - 1
    {
      var j := Lower(i, n);
      assert j < |L| - 1;
      assert solve(StrikeOutXY(L, n), Indicator(|L| - 1, j)) == Column(Li, j);
    }
    var sols := ReducedSolutions(L, n, solve);
    var A, P := AssembleColumns(sols, n), Pinv(L, n, Li);
    forall r, c | 0 <= r < |L| && 0 <= c < |L| ensures A[r][c] == P[r][c] {
      AssembleColumnsColumn(sols, n, c);
      assert Column(A, c)[r] == A[r][c];
      if c != n {
        PinvColumn(L, n, Li, Lower(c, n));
        assert Column(P, c)[r] == P[r][c];
      }
    }
    assert forall r :: 0 <= r < |L| ==> A[r] == P[r];
  }

  /** Column `n` of the assembled matrix is zero when its solution vector is, and row `n` always is. */
  lemma AssembledZeroCross(sols: seq<Vector>, n: nat)
    requires n < |sols| && sols[n] == Zeros(|sols| - 1)
    requires forall c :: 0 <= c < |sols| ==> |sols[c]| == |sols| - 1
    ensures forall c :: 0 <= c < |sols| ==>
      AssembleColumns(sols, n)[n][c] == 0.0 && AssembleColumns(sols, n)[c][n] == 0.0
  {
    var A := AssembleColumns(sols, n);
    AssembleColumnsColumn(sols, n, n);
    forall c | 0 <= c < |sols| ensures A[c][n] == 0.0 {
      assert Column(A, n)[c] == A[c][n];
    }
  }

  /** Exact solutions in every column but `n` make the reduced product the identity. */
  lemma ReducedIdentity(L: Matrix, n: nat, sols: seq<Vector>)
    requires IsSquare(L) && n < |L| && |sols| == |L|
    requires forall c :: 0 <= c < |sols| ==> |sols[c]| == |L| - 1
    requires forall j :: 0 <= j < |L| - 1 ==> MatVec(StrikeOutXY(L, n), sols[Lift(j, n)]) == Indicator(|L| - 1, j)
    ensures StrikeOutXY(MatMul(L, AssembleColumns(sols, n), |L|), n) == Identity(|L| - 1)
  {
    var got := StrikeOutXY(MatMul(L, AssembleColumns(sols, n), |L|), n);
    forall i | 0 <= i < |L| - 1 ensures got[i] == Identity(|L| - 1)[i] {
      forall j | 0 <= j < |L| - 1 ensures got[i][j] == Identity(|L| - 1)[i][j] {
        ReducedEntry(L, n, sols, i, j);
      }
    }
  }

  lemma ReducedEntry(L: Matrix, n: nat, sols: seq<Vector>, i: nat, j: nat)
    requires IsSquare(L) && n < |L| && |sols| == |L|
    requires forall c :: 0 <= c < |sols| ==> |sols[c]| == |L| - 1
    requires i < |L| - 1 && j < |L| - 1
    requires MatVec(StrikeOutXY(L, n), sols[Lift(j, n)]) == Indicator(|L| - 1, j)
    ensures StrikeOutXY(MatMul(L, AssembleColumns(sols, n), |L|), n)[i][j] == if i == j then 1.0 else 0.0
  {
    var a, b := Lift(i, n), Lift(j, n);
    var LA := MatMul(L, AssembleColumns(sols, n), |L|);
    assert StrikeOutXY(LA, n)[i][j] == LA[a][b];
    AssembledProductAt(L, n, sols, a, b);
    StrikeOutXYRow(L, n, i);
    assert MatVec(StrikeOutXY(L, n), sols[b])[i] == Dot(StrikeOutXY(L, n)[i], sols[b]);
  }
}
