/**
  Dense vectors and matrices over the reals, stored as sequences of rows,
  together with the index arithmetic used when one row or column is struck
  out of a square matrix.

  Striking out index `n` leaves the "reduced" indices 0 .. N-2; reduced index
  `k` stands for original index `Lift(k, n)`, and every original index other
  than `n` comes back with `Lower`.
*/
module Matrices {

  type Vector = seq<real>
  type Matrix = seq<seq<real>>

  /** `m` has `rows` rows and every row has `cols` entries. */
  predicate IsMatrix(m: Matrix, rows: nat, cols: nat) {
    |m| == rows && forall i :: 0 <= i < |m| ==> |m[i]| == cols
  }

  predicate IsSquare(m: Matrix) {
    IsMatrix(m, |m|, |m|)
  }

  // ---------------------------------------------------------------------
  // The strike-out index map

  /** The original index of reduced index `k` once index `n` is struck out. */
  function Lift(k: nat, n: nat): (i: nat)
    ensures i != n
    ensures n <= i ==> i == k + 1
    ensures i < n ==> i == k
  {
    if k < n then k else k + 1
  }

  /** The reduced index of original index `i`, which must not be the struck one. */
  function Lower(i: nat, n: nat): (k: nat)
    requires i != n
    ensures Lift(k, n) == i
    ensures k <= i
  {
    if i < n then i else i - 1
  }

  /**
    For every N and every n < N, `Lift` maps 0 .. N-2 one-to-one onto
    0 .. N-1 without n, and `Lower` undoes it.
  */
  lemma LiftIsBijection(n: nat, size: nat)
    requires n < size
    ensures forall k :: 0 <= k < size - 1 ==> Lift(k, n) < size && Lower(Lift(k, n), n) == k
    ensures forall i :: 0 <= i < size && i != n ==> Lower(i, n) < size - 1
    ensures forall k, k' :: 0 <= k < k' ==> Lift(k, n) < Lift(k', n)
  {
  }

  // ---------------------------------------------------------------------
  // Deleting and splicing one entry

  /** `s` without its entry at `n`: `s[:n] ++ s[n+1:]`. */
  function RemoveAt<T>(s: seq<T>, n: nat): (r: seq<T>)
    requires n < |s|
    ensures |r| == |s| - 1
    ensures forall k {:trigger r[k]} :: 0 <= k < |r| ==> r[k] == s[Lift(k, n)]
  {
    s[..n] + s[n + 1..]
  }

  /** `s` with a 0 spliced in so that it lands at position `n`. */
  function InsertZero(s: Vector, n: nat): (r: Vector)
    requires n <= |s|
    ensures |r| == |s| + 1
    ensures r[n] == 0.0
    ensures forall k {:trigger r[Lift(k, n)]} :: 0 <= k < |s| ==> r[Lift(k, n)] == s[k]
    ensures forall i {:trigger r[i]} :: 0 <= i < |r| && i != n ==> r[i] == s[Lower(i, n)]
  {
    s[..n] + [0.0] + s[n..]
  }

  /** Splicing a zero in at `n` and deleting position `n` again gives back `s`. */
  lemma RemoveInsertZero(s: Vector, n: nat)
    requires n <= |s|
    ensures RemoveAt(InsertZero(s, n), n) == s
  {
    var r := RemoveAt(InsertZero(s, n), n);
    assert forall k :: 0 <= k < |s| ==> r[k] == s[k];
  }

  function Zeros(size: nat): (z: Vector)
    ensures |z| == size
    ensures forall k :: 0 <= k < size ==> z[k] == 0.0
  {
    seq(size, _ => 0.0)
  }

  /** The unit vector of length `size` with its 1 at `i` (0 everywhere when i >= size). */
  function Indicator(size: nat, i: nat): (e: Vector)
    ensures |e| == size
    ensures forall k :: 0 <= k < size ==> e[k] == if k == i then 1.0 else 0.0
  {
    seq(size, k => if k == i then 1.0 else 0.0)
  }

  function Identity(size: nat): (m: Matrix)
    ensures IsMatrix(m, size, size)
    ensures forall i :: 0 <= i < size ==> m[i] == Indicator(size, i)
  {
    seq(size, i requires 0 <= i < size => Indicator(size, i))
  }

  // ---------------------------------------------------------------------
  // Sums and products

  function Sum(v: Vector): real
  {
    if |v| == 0 then 0.0 else Sum(v[..|v| - 1]) + v[|v| - 1]
  }

  function Dot(a: Vector, b: Vector): real
    requires |a| == |b|
  {
    if |a| == 0 then 0.0 else Dot(a[..|a| - 1], b[..|b| - 1]) + a[|a| - 1] * b[|b| - 1]
  }

  function VecAdd(a: Vector, b: Vector): (r: Vector)
    requires |a| == |b|
    ensures |r| == |a|
    ensures forall k :: 0 <= k < |a| ==> r[k] == a[k] + b[k]
  {
    seq(|a|, k requires 0 <= k < |a| => a[k] + b[k])
  }

  /** Column `j` of `m`, which every row must reach. */
  function Column(m: Matrix, j: nat): (c: Vector)
    requires forall i :: 0 <= i < |m| ==> j < |m[i]|
    ensures |c| == |m|
    ensures forall i :: 0 <= i < |m| ==> c[i] == m[i][j]
  {
    seq(|m|, i requires 0 <= i < |m| => m[i][j])
  }

  function MatVec(m: Matrix, x: Vector): (y: Vector)
    requires forall i :: 0 <= i < |m| ==> |m[i]| == |x|
    ensures |y| == |m|
    ensures forall i :: 0 <= i < |m| ==> y[i] == Dot(m[i], x)
  {
    seq(|m|, i requires 0 <= i < |m| => Dot(m[i], x))
  }

  /** The product of `a` (each row of length |b|) and `b` (|b| rows of length `cols`). */
  function MatMul(a: Matrix, b: Matrix, cols: nat): (p: Matrix)
    requires forall i :: 0 <= i < |a| ==> |a[i]| == |b|
    requires IsMatrix(b, |b|, cols)
    ensures IsMatrix(p, |a|, cols)
    ensures forall i, j :: 0 <= i < |a| && 0 <= j < cols ==> p[i][j] == Dot(a[i], Column(b, j))
  {
    seq(|a|, i requires 0 <= i < |a| => seq(cols, j requires 0 <= j < cols => Dot(a[i], Column(b, j))))
  }

  /** The vector of column sums of `m`, whose rows all have length `cols`. */
  function ColSum(m: Matrix, cols: nat): (s: Vector)
    requires IsMatrix(m, |m|, cols)
    ensures |s| == cols
  {
    if |m| == 0 then Zeros(cols) else VecAdd(ColSum(m[..|m| - 1], cols), m[|m| - 1])
  }

  // ---------------------------------------------------------------------
  // Lemmas about sums and products

  lemma {:induction false} DotAppend(a1: Vector, a2: Vector, b1: Vector, b2: Vector)
    requires |a1| == |b1| && |a2| == |b2|
    ensures Dot(a1 + a2, b1 + b2) == Dot(a1, b1) + Dot(a2, b2)
    decreases |a2|
  {
    if |a2| > 0 {
      var a2', b2' := a2[..|a2| - 1], b2[..|b2| - 1];
      assert (a1 + a2)[..|a1 + a2| - 1] == a1 + a2';
      assert (b1 + b2)[..|b1 + b2| - 1] == b1 + b2';
      DotAppend(a1, a2', b1, b2');
    } else {
      assert a1 + a2 == a1 && b1 + b2 == b1;
    }
  }

  lemma {:induction false} DotCommutes(a: Vector, b: Vector)
    requires |a| == |b|
    ensures Dot(a, b) == Dot(b, a)
    decreases |a|
  {
    if |a| > 0 {
      DotCommutes(a[..|a| - 1], b[..|b| - 1]);
    }
  }

  lemma {:induction false} DotZeros(x: Vector)
    ensures Dot(Zeros(|x|), x) == 0.0
    decreases |x|
  {
    if |x| > 0 {
      assert Zeros(|x|)[..|x| - 1] == Zeros(|x| - 1);
      DotZeros(x[..|x| - 1]);
    }
  }

  lemma {:induction false} DotLinear(a: Vector, b: Vector, x: Vector)
    requires |a| == |b| == |x|
    ensures Dot(VecAdd(a, b), x) == Dot(a, x) + Dot(b, x)
    decreases |x|
  {
    if |x| > 0 {
      var k := |x| - 1;
      assert VecAdd(a, b)[..k] == VecAdd(a[..k], b[..k]);
      DotLinear(a[..k], b[..k], x[..k]);
    }
  }

  /**
    A zero spliced in at `n` contributes nothing: the dot product skips
    position `n` of the other vector.
  */
  lemma {:induction false} DotInsertZero(a: Vector, b: Vector, n: nat)
    requires n <= |a| && |b| == |a| + 1
    ensures Dot(InsertZero(a, n), b) == Dot(a, RemoveAt(b, n))
    ensures Dot(b, InsertZero(a, n)) == Dot(RemoveAt(b, n), a)
  {
    var a1, a2 := a[..n], a[n..];
    var b1, b2 := b[..n], b[n + 1..];
    assert InsertZero(a, n) == (a1 + [0.0]) + a2;
    assert b == (b1 + [b[n]]) + b2;
    DotAppend(a1 + [0.0], a2, b1 + [b[n]], b2);
    DotZeroTail(a1, b1, b[n]);
    assert a1 + a2 == a;
    DotAppend(a1, a2, b1, b2);
    DotCommutes(InsertZero(a, n), b);
    DotCommutes(a, RemoveAt(b, n));
  }

  lemma DotZeroTail(a: Vector, b: Vector, x: real)
    requires |a| == |b|
    ensures Dot(a + [0.0], b + [x]) == Dot(a, b)
  {
    assert (a + [0.0])[..|a|] == a;
    assert (b + [x])[..|b|] == b;
  }

  /** Summing the rows of `m` each dotted with `x` is dotting the column sums with `x`. */
  lemma {:induction false} SumMatVec(m: Matrix, x: Vector)
    requires IsMatrix(m, |m|, |x|)
    ensures Sum(MatVec(m, x)) == Dot(ColSum(m, |x|), x)
    decreases |m|
  {
    if |m| == 0 {
      DotZeros(x);
    } else {
      var k := |m| - 1;
      assert MatVec(m, x)[..k] == MatVec(m[..k], x);
      SumMatVec(m[..k], x);
      DotLinear(ColSum(m[..k], |x|), m[k], x);
    }
  }

  lemma {:induction false} ColSumIsColumnSum(m: Matrix, cols: nat, j: nat)
    requires IsMatrix(m, |m|, cols) && j < cols
    ensures ColSum(m, cols)[j] == Sum(Column(m, j))
    decreases |m|
  {
    if |m| > 0 {
      var k := |m| - 1;
      assert Column(m, j)[..k] == Column(m[..k], j);
      ColSumIsColumnSum(m[..k], cols, j);
    }
  }

  lemma {:induction false} SumIndicator(size: nat, i: nat)
    ensures Sum(Indicator(size, i)) == if i < size then 1.0 else 0.0
    decreases size
  {
    if size > 0 {
      assert Indicator(size, i)[..size - 1] == Indicator(size - 1, i);
      SumIndicator(size - 1, i);
    }
  }
}
